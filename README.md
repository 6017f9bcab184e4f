# Advent of Code 2024 solvers in C, modelled in Dafny

This project models the algorithmic cores of a set of C solutions to the
Advent of Code 2024 puzzles, and proves what each core computes.  One Dafny
module per solver file, plus shared modules:

- `MinHeap` (`heap.dfy`): the binary min-heap that the maze solvers each copy
  (`push_pq`, `pop_pq`, `sift_down_pq`, `peek_pq`), as a class over a
  doubling array, with the root check of C's truncating `(k - 1) / 2`.
- `GridWalk`, `MazeWalk` (`grid_walk.dfy`, `maze_walk.dfy`): walks over open
  cells and weighted (cell, heading) routes, with the frontier argument that
  makes a heap search return shortest walks and cheapest routes.
- `FlatGrid`, `CArith`, `Decimal`, `LongBits`, `Optional`: the `IDX_2D` row-major index
  and per-direction bit flags, C's truncating `/` and `%`, powers of ten and
  digit counts, single bits of a `long long`, and an optional value.
- Day 5 `PrintQueue`: page-order checking with in-place correction.
- Day 6 `GuardGallivant`: the guard's walk, visited marks and direction
  bitmasks, and the count of obstacles that trap the guard in a loop.
- Day 7 `BridgeRepair`: backward search with subtraction, exact division
  and base-10 un-concatenation.
- Day 8 `ResonantCollinearity`: frequency tables, gcd, antinode lines and
  their marking on the map.
- Day 9 `DiskFragmenter` (part 1, two cursors over the size arrays) and
  `WholeFiles` (part 2, a doubly linked list of runs).
- Day 10 `HoofIt`: memoised reachable-peak sets merged as sorted arrays.
- Day 11 `PlutonianPebbles`: digit tries as a memo for stone counting.
- Day 13 `ClawContraption`: Cramer's rule with C's integer division.
- Day 14 `RestroomRedoubt`: wrap-around robot motion and quadrant counts.
- Day 15 `WarehouseWoes`: the robot pushing lines of boxes.
- Day 16 `ReindeerMaze` (part 1) and `ReindeerPaths` (part 2, first attempt):
  the uniform-cost search over (cell, heading) states with turn cost 1000,
  tie-aware predecessor flags and the back-walk collecting best-path squares.
- Day 18 `RamRun`: the step-keyed heap search on a square grid with
  obstacles.
- Day 20 `RaceCondition` (best path and its back-walk) and `RaceCheats`
  (distance map and cheats at taxicab distance 2 .. 20).
- Day 22 `MonkeyMarket`: the xor-shift-prune secret-number hash.
- Day 24 `CrossedWires`: gates evaluated from a linked work queue.

Where the C code mutates arrays, records or linked nodes in place, the model
does too (classes with `modifies` clauses, `array` and `array2` fields);
pure helpers are functions.  Each method is proved against a specification
function or predicate, and the properties the puzzles rely on are proved
about those specifications as lemmas.

## Model

| member | source | states |
|---|---|---|
| `CArith.CRem` | day_08/part2.c:320 | C's `%`: the remainder is smaller in size than the divisor and has the sign of the dividend |
| `CArith.DivRemIdentity` | day_13/part2.c:143-146 | C's truncating quotient and remainder recombine to the dividend |
| `CArith.KnownQuotient` | day_13/part2.c:143-146 | when the divisor divides the dividend, C's remainder is 0 and its quotient is the cofactor |
| `CArith.MulSigns` | day_13/part2.c:140-150 | the size and sign of a product with a nonzero factor, which fixes the sign of a C quotient |
| `CArith.RemZeroIffDivides` | day_13/part2.c:143-148 | a zero C remainder holds exactly when the divisor divides the dividend |
| `Decimal.Pow10AtMostIff` | day_07/part2.c:136-139 | `10^k <= n` exactly when `n` has more than `k` decimal digits |
| `Decimal.Pow10AboveDigits` | day_11/part2.c:244-248 | the least power of ten above `n` is `10^digits(n)` |
| `Decimal.Pow10Add` | day_11/part2.c:244-248 | powers of ten multiply by adding exponents, so a split at half the digits recombines |
| `FlatGrid.Idx` | day_20/part1.c:25 | `IDX_2D`: the row-major offset of an in-bounds cell lies inside the flat map |
| `FlatGrid.IdxInjective` | day_20/part1.c:25 | two in-bounds cells share an offset exactly when they are the same cell |
| `FlatGrid.Bit` | day_20/part1.c:349 | the found bit for a direction is `1 << direction` |
| `FlatGrid.MarkedBits` | day_20/part1.c:345-350 | after OR-ing in the bit of `d`, a direction's bit is set exactly when it is `d` or was set before |
| `MinHeap.ParentIndex` | day_16/part1.c:302 | C's `(k - 1) / 2`: the parent lies before a non-root entry, and the root's "parent" truncates to the root |
| `MinHeap.RootIsMinimum` | day_16/part1.c:379-382 | the root of an ordered heap holds a least key |
| `MinHeap.Swap` | day_16/part1.c:313-316 | exchanging two entries changes nothing else and keeps the multiset of entries |
| `MinHeap.RemoveRoot` | day_16/part1.c:328-333 | moving the last entry to the root keeps the rest ordered and removes exactly the old root |
| `MinHeap.Heap.constructor` | day_16/part1.c:191 | the empty heap `{NULL, 0, 0}` |
| `MinHeap.Heap.Peek` | day_16/part1.c:379-382 | `peek_pq`: the root, an entry of the heap whose key is least |
| `MinHeap.Heap.Resize` | day_16/part1.c:285-289 | `resize_pq`: a fresh array of the new capacity holding the same entries |
| `MinHeap.Heap.Push` | day_16/part1.c:294-323 | `push_pq`: the capacity doubles when full (one slot when it had none), the length grows by one and the entries gain exactly the pushed one, in heap order |
| `MinHeap.Heap.SiftUp` | day_16/part1.c:310-322 | the sift-up loop restores heap order and keeps the multiset of entries |
| `MinHeap.Heap.SiftDown` | day_16/part1.c:338-376 | `sift_down_pq`: restores heap order below the index and keeps the multiset of entries |
| `MinHeap.Heap.SmallestOfFamily` | day_16/part1.c:340-366 | the comparisons of `sift_down_pq`: the index of a least key among parent and children, preferring the parent on ties and otherwise the strictly smaller child |
| `MinHeap.Heap.Pop` | day_16/part1.c:328-333 | `pop_pq`: the length drops by one and exactly the old root leaves the entries, in heap order |
| `MinHeap.Heap.MoveLastToRoot` | day_16/part1.c:330-331 | the last entry is removed from the end and stored at the root |
| `MinHeap.Heap.PopOrEmpty` | day_18/part1.c:227-238 | `pop_pq` of the step-counting solvers: on an empty heap it returns the `steps = -1` sentinel and changes nothing; otherwise it returns a least entry and removes exactly it |
| `GridWalk.ReachStep` | day_18/part1.c:145-156 | a walk extends by one step to an open neighbour |
| `GridWalk.NoShorterWalk` | day_18/part1.c:158-166 | no walk to an unvisited cell is shorter than the least key queued for an unvisited cell |
| `GridWalk.Unreachable` | day_18/part1.c:135-160 | with no unvisited cell queued, an unvisited cell cannot be reached |
| `GridWalk.FrontierVisit` | day_18/part1.c:137-156 | visiting a popped cell and queueing its open unvisited neighbours one step further keeps every shortest walk's frontier in the queue |
| `GridWalk.ShortestIsSimple` | day_20/part1.c:361-409 | a shortest walk never visits a cell twice |
| `MazeWalk.TurnLeft` | day_16/part1.c:234 | `(dir + 1) & 0b11` is a heading: the remainder of `dir + 1` modulo 4 |
| `MazeWalk.TurnRight` | day_16/part1.c:238 | `(dir - 1) & 0b11` is a heading: the remainder of `dir - 1` modulo 4, so east turns to south |
| `MazeWalk.Turns` | day_16/part1.c:232-240 | the two turns undo each other and lead to the two other headings |
| `MazeWalk.RouteCost` | day_16/part1.c:7-8 | the price of a route, at least one per move (MOVE_COST 1, TURN_COST 1000) |
| `MazeWalk.ReachStep` | day_16/part1.c:222-240 | a route extends by one move at that move's price |
| `MazeWalk.NoCheaperRoute` | day_16/part1.c:197-255 | no route to a state not yet found is cheaper than the least score queued for a state not found |
| `MazeWalk.NoRoute` | day_16/part1.c:197-255 | with nothing queued, no state outside the found ones can be reached |
| `MazeWalk.FrontierExpand` | day_16/part1.c:199-240 | finding the state in hand and queueing its successors at its score plus their price keeps the frontier of every cheapest route |
| `PrintQueue.InOrderUpToPairs` | day_05/part2.c:136-171 | the first `n` pages are in order exactly when no page among them must precede a page placed before it |
| `PrintQueue.FirstFollower` | day_05/part2.c:150-152 | the first index from `k` on whose page the given page must precede, or the end when there is none; no earlier index qualifies |
| `PrintQueue.CorrectedPermutes` | day_05/part2.c:141-165 | correcting an update only reorders its pages: the same multiset |
| `PrintQueue.InOrderUnchanged` | day_05/part2.c:146-159 | an update already in order is left exactly as it is |
| `PrintQueue.CorrectedInOrder` | day_05/part2.c:141-165 | when the rules order the update's pages strictly and totally, the corrected update is in order |
| `PrintQueue.ArrContains` | day_05/part2.c:174-180 | `arr_contains`: true exactly when `n` is in the array |
| `PrintQueue.PagesThatMustFollow` | day_05/part2.c:188-197 | `pages_that_must_follow`: a page is returned exactly when an active rule puts `n` before it, and there are no more of them than active rules |
| `PrintQueue.FindNewIndex` | day_05/part2.c:150-152 | the new index is the first one holding a page that must follow, and it exists below the page's own index |
| `PrintQueue.MoveBack` | day_05/part2.c:154-157 | the shift: the page at `i` lands at the new index, the pages in between move one place right, the rest stay |
| `PrintQueue.CorrectedStep` | day_05/part2.c:143-165 | correcting one more page inserts it into the corrected prefix in front of the first page it must precede |
| `PrintQueue.FollowersMeaning` | day_05/part2.c:145-147 | the pages that must follow page `i` are, among the pages before it, exactly those it must precede; there is one exactly when page `i` is out of order |
| `PrintQueue.CorrectPage` | day_05/part2.c:143-159 | one page of `is_valid_update`: the prefix becomes the corrected prefix, the rest is untouched, and `moved` holds exactly when the page had to move |
| `PrintQueue.ActiveMembers` | day_05/part2.c:139-140 | a rule is active exactly when it is a rule whose second page has been seen |
| `PrintQueue.ActivateRules` | day_05/part2.c:161-164 | the rules whose second page is the current page join the active ones, in rule order |
| `PrintQueue.IsValidUpdate` | day_05/part2.c:136-171 | `is_valid_update`: the pages become the corrected update, and the result is true exactly when the update was in order |
| `PrintQueue.ValidUpdatesAddNothing` | day_05/part2.c:118-128 | updates that are all in order add nothing to the sum |
| `PrintQueue.InvalidAddsOwnPage` | day_05/part2.c:123-125 | an update out of order adds one of its own pages, the middle one of its corrected order |
| `PrintQueue.SumOfCorrectedInvalidMiddles` | day_05/part2.c:118-128 | `sum_of_corrected_invalid_middles`: every update is corrected in place and the sum is that of the middle pages of the updates that were out of order |
| `GuardGallivant.Guard.constructor` | day_06/part2.c:30-35 | a guard at the given row, column and heading |
| `GuardGallivant.RotateRight` | day_06/part2.c:47 | `rotate_right`: `(dir + 1) % 4` is a heading |
| `GuardGallivant.RotationCycle` | day_06/part2.c:23-29 | turning right runs up, right, down, left and back to up; four turns are the identity and one or two change the heading |
| `GuardGallivant.TurnedFour` | day_06/part2.c:211-215 | four right turns on the spot face the guard the way it started |
| `GuardGallivant.PeekGuard` | day_06/part2.c:250-280 | `peek_guard`: the tile ahead when it is on the map, and `'\0'` otherwise (looking right past the last column reads the row's terminator) |
| `GuardGallivant.Obstacles` | day_06/part2.c:208-215 | the obstacle set of a map is exactly its `'#'` tiles, all on the map |
| `GuardGallivant.PeekMeaning` | day_06/part2.c:205-215 | the guard sees `'#'` exactly when the tile ahead is an obstacle and, on a map of C strings, sees `'\0'` exactly when the tile ahead is off the map |
| `GuardGallivant.FreeTurns` | day_06/part2.c:211-215 | how many right turns the guard makes before it faces a tile that is no obstacle: every earlier heading is blocked and, short of four, that one is not |
| `GuardGallivant.Next` | day_06/part2.c:203-247 | one move of the corrected `move_guard` (see "## Left out"): the guard lands on the map, on a tile that is no obstacle, with a heading; none when it would leave the map or is boxed in |
| `GuardGallivant.NextClear` | day_06/part2.c:224-244 | a guard facing a clear tile steps onto it, or leaves the map |
| `GuardGallivant.NextAtObstacle` | day_06/part2.c:210-215 | at an obstacle the guard turns right and moves on as from the turned pose |
| `GuardGallivant.FreeTurnsRotated` | day_06/part2.c:210-215 | facing an obstacle, one turn leaves one turn fewer to make; boxed in stays boxed in |
| `GuardGallivant.GuardWalkOnMap` | day_06/part2.c:185-194 | the guard's walk stays on the map with a heading and, after its first move, never stands on an obstacle |
| `GuardGallivant.WalkEnded` | day_06/part2.c:188-189 | a walk that has left the map stays ended |
| `GuardGallivant.SameFuture` | day_06/part2.c:396-420 | two moments at the same pose have the same future |
| `GuardGallivant.LoopsForever` | day_06/part2.c:356-375 | a walk that comes back to an earlier pose never ends |
| `GuardGallivant.SeenMeaning` | day_06/part2.c:410-425 | a pose recorded after `n` moves is one the walk stood in within those moves |
| `GuardGallivant.VisitedCells` | day_06/part2.c:179-196 | the tiles marked 'X' after `n` moves include the tiles marked before and the start |
| `GuardGallivant.NewTilesMeaning` | day_06/part2.c:179-196 | the collected tiles are distinct, none was marked before or is the start, and with those they are exactly the walk's tiles |
| `GuardGallivant.NewTilesAfterEnd` | day_06/part2.c:188-189 | once the walk has ended, later rounds add no tile |
| `GuardGallivant.TurnAtObstacles` | day_06/part2.c:205-215 | the turning of the corrected `move_guard`, which gives up after four turns: the guard ends on its tile, turned until it faces a tile that is no obstacle (at most four turns), and the returned byte is what it then faces |
| `GuardGallivant.NextAfterTurns` | day_06/part2.c:205-247 | after the turns the guard faces `'#'` only when boxed in, `'\0'` when the move leaves the map, and otherwise the tile it moves onto |
| `GuardGallivant.StepForward` | day_06/part2.c:225-240 | the step moves the guard one tile along its heading |
| `GuardGallivant.MoveGuard` | day_06/part2.c:203-247 | `move_guard` as its doc comment promises, the corrected move: the guard takes the move `Next` gives and marks its tile 'X'; 1 for a tile not marked before, 0 for a marked one, -1 when it leaves the map or is boxed in |
| `GuardGallivant.VisitedMarks` | day_06/part2.c:183 | the set of tiles marked 'X' in a map |
| `GuardGallivant.VisitStep` | day_06/part2.c:186-194 | one round of `unique_visited_tiles`: the guard is at the walk's next pose and the tiles list grows exactly by a tile not marked before |
| `GuardGallivant.UniqueVisitedTiles` | day_06/part2.c:179-196 | `unique_visited_tiles` over the corrected move: after at most rows times columns moves, the list holds each tile the walk stepped onto that was not marked, once, and the map marks them |
| `GuardGallivant.MaskBits` | day_06/part2.c:412-423 | a direction mask keeps to the low nibble and has a heading's bit exactly when the guard stood on the tile in that heading |
| `GuardGallivant.MarkStep` | day_06/part2.c:412-423 | on a marked tile the test finds the guard's pose exactly when the walk saw it before, and otherwise the update records it |
| `GuardGallivant.MoveGuardWithDirection` | day_06/part2.c:380-426 | `move_guard_with_direction` as the corrected move: the guard takes the move `Next` gives; 1 when its tile already holds its heading (a loop), -1 when it leaves the map or is boxed in, else 0 with the heading recorded |
| `GuardGallivant.RecordHeading` | day_06/part2.c:410-423 | a printable tile gets the heading's bit alone, a mask without it gets it added, a mask with it is reported |
| `GuardGallivant.MarkStart` | day_06/part2.c:359 | the start tile gets the bit of the guard's heading |
| `GuardGallivant.SeenAgain` | day_06/part2.c:366-370 | coming back to a pose seen before, the walk goes on forever |
| `GuardGallivant.LoopStep` | day_06/part2.c:364-371 | one round of `contains_loop`: the guard is at the walk's next pose, with every pose so far recorded on the map |
| `GuardGallivant.ContainsLoop` | day_06/part2.c:356-375 | `contains_loop` over the corrected move: 0 exactly when the walk leaves the map within rows times columns moves, and 1 otherwise; 1 from a revisited pose means the walk never ends |
| `GuardGallivant.LoopCount` | day_06/part2.c:291-353 | the number of positions at which an added obstacle keeps the guard walking past rows times columns moves |
| `GuardGallivant.ObstaclesUnique` | day_06/part2.c:304-312 | a set that holds exactly the `'#'` tiles is the map's obstacle set |
| `GuardGallivant.ObstructionsThatCreateLoops` | day_06/part2.c:291-353 | `obstructions_that_create_loops` over the corrected move: the count is `LoopCount`, each position tried on a copy of the map |
| `GuardGallivant.BoxedNeverReturns` | day_06/part2.c:210-215 | a guard boxed in by four obstacles sends the recursion as written on at any depth, where the corrected move reports none |
| `GuardGallivant.AsWrittenAgrees` | day_06/part2.c:203-247 | a guard not boxed in makes the recursion as written return within five calls with the corrected move's outcome |
| `GuardGallivant.BoxedExample` | day_06/part2.c:296-316 | on a 3x3 map with the guard facing up at the centre and obstacles above, left and right, the added obstacle below boxes the guard in and the recursion as written never returns |
| `BridgeRepair.Pow10Above` | day_07/part2.c:136-139 | the least power of ten above the operand: above it, and at most ten times it |
| `BridgeRepair.PowerAbove` | day_07/part2.c:137-139 | the loop of `un_concat_10` finds exactly that power of ten |
| `BridgeRepair.UnConcat10` | day_07/part2.c:131-147 | `un_concat_10` returns `UnConcat(operand, sum)`: -1 below the operand or when the digits do not match, else the sum with the operand's digits removed |
| `BridgeRepair.UnConcatTooSmall` | day_07/part2.c:133-135 | a sum below the operand can never end in it |
| `BridgeRepair.UnConcatOfConcat` | day_07/part2.c:131-147 | removing the digits of `b` from `a` concatenated with `b` gives back `a` |
| `BridgeRepair.ConcatOfUnConcat` | day_07/part2.c:131-147 | whatever `un_concat_10` succeeds with, concatenating the operand onto it gives the sum back |
| `BridgeRepair.ValidValues` | day_07/part2.c:90-118 | `valid_values` on any nonzero operands: with none left it holds exactly when the target is 0, and with operands left only for a positive target |
| `BridgeRepair.NoOperands` | day_07/part2.c:97-99 | with no operands left, `valid_values` holds exactly when the target is 0 |
| `BridgeRepair.NonPositiveTarget` | day_07/part2.c:101-103 | with operands left, a target that is not positive is never valid |
| `BridgeRepair.EvalPositive` | day_07/part2.c:85-125 | left-to-right evaluation of positive operands with `+`, `*` and concatenation is positive |
| `BridgeRepair.ValidValuesIffSolvable` | day_07/part2.c:85-125 | `valid_values` holds exactly when some choice of operators, evaluated left to right, makes the equation true |
| `BridgeRepair.NegativeOperandMissed` | day_07/part2.c:101-118 | with a negative operand the search misses a solution: `-1 + 2` makes 1, but `valid_values(1, [-1, 2])` is false |
| `BridgeRepair.SolutionFromSearch` | day_07/part2.c:105-124 | a successful backward search yields operators whose evaluation is the target |
| `BridgeRepair.SearchFindsSolution` | day_07/part2.c:105-124 | the backward search succeeds on the value of every choice of operators |
| `ResonantCollinearity.FrequencyMapIndex` | day_08/part2.c:173-187 | `frequency_map_index`: digits map to 0-9, upper-case letters to 10-35, lower-case letters to 36-61, anything else to -1 |
| `ResonantCollinearity.FrequencyMapIndexInjective` | day_08/part2.c:173-187 | distinct frequency characters never share a table |
| `ResonantCollinearity.GcdDividesBoth` | day_08/part2.c:312-321 | `gcd` divides both of its arguments |
| `ResonantCollinearity.GcdGreatest` | day_08/part2.c:312-321 | every common divisor divides `gcd`'s result, so up to sign it is the greatest common divisor |
| `ResonantCollinearity.GcdNonZero` | day_08/part2.c:312-321 | for two different antennas the divisor is never zero, so the divisions at lines 279-280 are defined |
| `ResonantCollinearity.PairOnWalk` | day_08/part2.c:270-280 | the reduced step is not zero and the second antenna lies a whole number of steps from the first |
| `ResonantCollinearity.Convex` | day_08/part2.c:284-300 | the in-bounds points of a line form one unbroken run |
| `ResonantCollinearity.StaysOut` | day_08/part2.c:284-300 | a walk along the line that has just left the grid stays out of it |
| `ResonantCollinearity.WalkBack` | day_08/part2.c:284-291 | the loop "before and including antenna1" appends exactly antenna1 and the in-bounds points behind it, stopping at the first point out of bounds |
| `ResonantCollinearity.WalkAhead` | day_08/part2.c:292-300 | the loop "after antenna1" appends exactly the in-bounds points ahead of antenna1, stopping at the first point out of bounds |
| `ResonantCollinearity.WalkLine` | day_08/part2.c:282-300 | the two walks together append exactly the in-bounds points of the pair's line |
| `ResonantCollinearity.AddPairLines` | day_08/part2.c:265-301 | the inner loop appends exactly the in-bounds points on the lines of antenna `i` with every later antenna |
| `ResonantCollinearity.FindPossibleAntinodes` | day_08/part2.c:255-306 | `find_possible_antinodes`: a point is returned exactly when it is in bounds and on the line of some pair of antennas |
| `ResonantCollinearity.PossibleIsLine` | day_08/part2.c:255-306 | the set of returned points is the frequency's set of antinode cells |
| `ResonantCollinearity.AntinodeCells` | day_08/part2.c:214-247 | the cells `count_antinodes` marks, the antinodes of every frequency with at least two antennas, all in bounds |
| `ResonantCollinearity.MarkCells` | day_08/part2.c:229-240 | the filtering loop marks each listed cell '#' and counts exactly the listed cells not marked before |
| `ResonantCollinearity.MarkFrequency` | day_08/part2.c:222-243 | one frequency marks its antinodes and counts those neither marked by an earlier frequency nor marked on the map from the start |
| `ResonantCollinearity.CountAntinodes` | day_08/part2.c:214-247 | `count_antinodes`: every antinode cell ends up '#', other cells are unchanged, and the count is the number of antinode cells not already '#' |
| `ResonantCollinearity.CountFrequency` | day_08/part2.c:217-246 | one round over the tables: a table of fewer than two antennas changes nothing |
| `ResonantCollinearity.CountOnFreshMap` | day_08/part2.c:214-247 | on a map without '#', the count is the number of distinct antinode cells |
| `DiskFragmenter.CompactBlocks` | day_09/part1.c:102-149 | the compacted disk holds every file block of the disk exactly once and no free block |
| `DiskFragmenter.CompactFront` | day_09/part1.c:115-122 | a file block at the front of the disk stays in front |
| `DiskFragmenter.CompactTrailing` | day_09/part1.c:113 | free space at the back of the disk changes nothing |
| `DiskFragmenter.CompactBack` | day_09/part1.c:123-137 | a free block at the front takes the last block of the disk |
| `DiskFragmenter.DiskSpan` | day_09/part1.c:107-110 | the whole disk is the span from the first file to the last, then the trailing free space |
| `DiskFragmenter.FrontStep` | day_09/part1.c:115-122 | a block of the file under the front cursor is the next block of the compacted disk |
| `DiskFragmenter.SkipEmptyEnd` | day_09/part1.c:127-131 | an empty file under the back cursor is passed over: the compacted disk is the same without it |
| `DiskFragmenter.BackStep` | day_09/part1.c:123-137 | with the front file used up, the next free block takes the last block of the file under the back cursor |
| `DiskFragmenter.ChecksumStep` | day_09/part1.c:115-137 | placing block `x` at position `pos` adds `pos * x` to the checksum, modulo 2^64 |
| `DiskFragmenter.FrontRound` | day_09/part1.c:115-122 | a block from the front file goes to the next position, keeping the loop's progress invariant |
| `DiskFragmenter.SkipRound` | day_09/part1.c:127-131 | an empty back file is passed over without placing anything, and the loop's measure drops |
| `DiskFragmenter.BackRound` | day_09/part1.c:123-137 | a block from the back file fills the next free block, keeping the loop's progress invariant |
| `DiskFragmenter.NextRound` | day_09/part1.c:138-144 | with the front file and its gap used up the front cursor moves on, and the loop's measure drops |
| `DiskFragmenter.CountDown` | day_09/part1.c:121 | `a[i]--` changes that entry only |
| `DiskFragmenter.TakeFront` | day_09/part1.c:119-121 | `checksum += pos * start; files[start]--` places the front file's block |
| `DiskFragmenter.FillGap` | day_09/part1.c:134-136 | `checksum += pos * end; free_space[start]--; files[end]--` fills a free block from the back |
| `DiskFragmenter.Round` | day_09/part1.c:113-146 | one round of the loop keeps the progress invariant, keeps the sizes between 0 and their start, and makes the measure drop |
| `DiskFragmenter.CompressedChecksum` | day_09/part1.c:102-149 | `compressed_checksum` with signed cursors, the corrected version (see "## Left out"): the checksum of the compacted disk modulo 2^64, the sizes only counted down |
| `DiskFragmenter.EndCursorAsWritten` | day_09/part1.c:110 | `files_size - 1` in `size_t` is 2^64 - 1 for an empty map |
| `DiskFragmenter.RoundAsWritten` | day_09/part1.c:113-146 | one round with `size_t` cursors: the loop ends exactly when the front cursor passes the back one |
| `DiskFragmenter.UnderflowExample` | day_09/part1.c:110-131 | for the map `02` the back cursor passes over file 0, wraps to 2^64 - 1 and the next round reads past `files`; the empty map reads `files[0]` at once |
| `DiskFragmenter.CorrectedExample` | day_09/part1.c:102-149 | with signed cursors the same maps give checksum 0 |
| `WholeFiles.ChecksumFree` | day_09/part2.c:191-193 | free blocks only advance the position and leave the checksum as it is |
| `WholeFiles.InitialDisk` | day_09/part2.c:133-141 | the list built from the disk map spells out the same disk, block by block, as the map itself |
| `WholeFiles.FirstFit` | day_09/part2.c:336-347 | `find_first_free_space`: the first node before the file that is free space at least as large as it, or none; no earlier node fits |
| `WholeFiles.Move` | day_09/part2.c:283-330 | `move_node`: the list stays well formed, the head is unchanged and the freed source is not the head |
| `WholeFiles.PairMerge` | day_09/part2.c:320-329 | two neighbouring free runs spell out the same disk as one run of their joint size |
| `WholeFiles.MergeDisk` | day_09/part2.c:319-329 | merging free neighbours leaves the disk as it was |
| `WholeFiles.MoveDisk` | day_09/part2.c:283-330 | after a move the file's blocks fill the start of the free run it moved into, its old blocks become free, and every other block stays where it was |
| `WholeFiles.MoveKeepsBlocks` | day_09/part2.c:283-330 | a move keeps the multiset of blocks of the disk |
| `WholeFiles.Try` | day_09/part2.c:149-171 | one round of the main loop: the list stays well formed with the same head, and either the id looked for goes down or the search moves to an earlier node |
| `WholeFiles.Defrag` | day_09/part2.c:149-171 | the loop from a node back to the head, stopping at the head or at file 0, keeps the list well formed with the same head |
| `WholeFiles.DefragAll` | day_09/part2.c:143-171 | the whole loop from the tail keeps the list well formed with the same head |
| `WholeFiles.TryKeepsBlocks` | day_09/part2.c:154-167 | a round keeps every block of the disk |
| `WholeFiles.DefragKeepsBlocks` | day_09/part2.c:149-171 | defragmenting keeps every block: files only move into free space, and free space fills the places they leave |
| `WholeFiles.DefragAllKeepsBlocks` | day_09/part2.c:143-171 | the whole loop keeps every block of the disk |
| `WholeFiles.LinkedList.constructor` | day_09/part2.c:131 | the empty list `{NULL, NULL}` |
| `WholeFiles.LinkedList.AppendList` | day_09/part2.c:205-227 | `append_list`: a new node at the tail, the rest unchanged |
| `WholeFiles.LinkedList.DeleteNode` | day_09/part2.c:250-277 | `delete_node`: the node is unlinked, NULL changes nothing |
| `WholeFiles.LinkedList.FindFirstFreeSpace` | day_09/part2.c:336-347 | the linear search returns `FirstFit` |
| `WholeFiles.LinkedList.MoveNode` | day_09/part2.c:283-330 | `move_node`: the file moves to just after the new parent, and the freed source merges with its free neighbours, as `Move` gives |
| `WholeFiles.LinkedList.PlaceNode` | day_09/part2.c:292-318 | the first half of `move_node`: the free run after the new parent shrinks and is unlinked once empty, a copy of the file follows the parent, and the source node becomes free space |
| `WholeFiles.LinkedList.AbsorbPrevNode` | day_09/part2.c:320-324 | the freed node absorbs a free node just before it, which is unlinked |
| `WholeFiles.LinkedList.AbsorbNextNode` | day_09/part2.c:325-329 | the freed node absorbs a free node just after it, which is unlinked |
| `WholeFiles.Compacted` | day_09/part2.c:131-171 | the disk map's list after every file from the last id down was tried once, starting at the tail; well formed |
| `WholeFiles.CompactedBlocks` | day_09/part2.c:131-171 | compaction keeps the blocks of the disk the map describes, and file 0 stays at the front |
| `WholeFiles.BuildList` | day_09/part2.c:133-141 | the loop builds the list of each file followed by its free space when that is not empty |
| `WholeFiles.TryNode` | day_09/part2.c:154-170 | one round of the main loop on the list does what `Try` describes |
| `WholeFiles.DefragNode` | day_09/part2.c:149-171 | a round of the loop leaves the same outcome to the rest of the loop and lowers the id looked for or the node |
| `WholeFiles.Defragment` | day_09/part2.c:143-171 | the main loop leaves the list `DefragAll` describes |
| `WholeFiles.FileStep` | day_09/part2.c:189-190 | one more block of a file adds `id * pos` to the checksum, modulo 2^64 |
| `WholeFiles.AddFile` | day_09/part2.c:187-190 | the inner loop adds the checksum of the file's blocks and moves the position past them |
| `WholeFiles.ForwardChecksum` | day_09/part2.c:183-195 | the forward loop computes the checksum of the disk the list spells out, modulo 2^64 |
| `WholeFiles.CompressedChecksum` | day_09/part2.c:125-199 | `compressed_checksum` with the corrected start (the last file id, not `tail->id`; see "## Left out"): the checksum of the compacted disk, modulo 2^64 |
| `WholeFiles.CompactedAsWritten` | day_09/part2.c:144-149 | the compaction as written, with the first id looked for taken from the tail node; well formed |
| `WholeFiles.StartIdWhenFileLast` | day_09/part2.c:146 | when the map ends with a file the tail is the last file, and compaction as written equals the corrected one |
| `WholeFiles.TailWhenFileLast` | day_09/part2.c:137-141 | a map whose last free space is empty has the last file at the tail |
| `WholeFiles.TrailingFreeExample` | day_09/part2.c:146-149 | for files `[1, 1]` and gaps `[2, 3]` the tail is free space, the loop as written starts from id -1 and stops at once, and the checksum is 3 |
| `WholeFiles.ExampleMove` | day_09/part2.c:283-330 | on that map, file 1 moves into the gap after file 0 and the three free runs left behind merge into one |
| `WholeFiles.TrailingFreeCorrected` | day_09/part2.c:143-171 | started from the last file id, file 1 moves into the first gap and the checksum is 1 |
| `HoofIt.Short` | day_10/part1.c:193-194 | the `(short)` cast agrees with the value modulo 2^16 |
| `HoofIt.Bytes` | day_10/part1.c:25-29 | a `Point` in memory is four bytes, each below 256 |
| `HoofIt.Memcmp` | day_10/part1.c:274 | the sign of `memcmp` is -1, 0 or 1, and 0 exactly when the bytes are equal |
| `HoofIt.MemcmpFlip` | day_10/part1.c:274-280 | swapping the operands of `memcmp` flips its sign |
| `HoofIt.MemcmpTrans` | day_10/part1.c:274-280 | `memcmp` order is transitive |
| `HoofIt.BytesInjective` | day_10/part1.c:274 | equal bytes mean equal points |
| `HoofIt.BeforeTotal` | day_10/part1.c:274-280 | the byte order on points is a strict total order |
| `HoofIt.BeforeTrans` | day_10/part1.c:274-280 | the byte order on points is transitive |
| `HoofIt.UnionElems` | day_10/part1.c:239-246 | the union holds exactly the points of either array |
| `HoofIt.UnionLength` | day_10/part1.c:244 | the union is no longer than both arrays together |
| `HoofIt.UnionSorted` | day_10/part1.c:245 | merging two sorted arrays gives a sorted array |
| `HoofIt.UnionHead` | day_10/part1.c:274-288 | the next merged point is the smaller head, or the left head once for two equal heads |
| `HoofIt.UnionRest` | day_10/part1.c:291-294 | once one array is used up, the rest of the union is the rest of the other |
| `HoofIt.Put` | day_10/part1.c:278 | one store at the destination cursor extends the merged prefix by that point |
| `HoofIt.CopyRest` | day_10/part1.c:291-294 | the tail loops copy the rest of one array after the merged prefix |
| `HoofIt.UnionPointArrays` | day_10/part1.c:246-299 | `union_point_arrays` returns the sorted union of its inputs and its size, for an empty first or second array too |
| `HoofIt.HeightAt` | day_10/part1.c:188 | a square's height on a map of digits is between 0 and 9 |
| `HoofIt.Guard` | day_10/part1.c:209-227 | the bounds test before a neighbour holds exactly when the neighbour is on the map |
| `HoofIt.GuardAsWritten` | day_10/part1.c:209-227 | the tests as written: right, up and left agree with `Guard`, but down compares the row with the column count |
| `HoofIt.GuardSquareMap` | day_10/part1.c:227 | on a square map the test as written is the right one |
| `HoofIt.DownGuardExamples` | day_10/part1.c:227 | on a 1 by 2 map the test lets the down step out of the map, and on a 3 by 2 map it stops a down step that stays in the map |
| `HoofIt.PeaksElems` | day_10/part1.c:187-231 | a peak's array is itself; otherwise a point is in the array exactly when it is in the array of a neighbour one higher |
| `HoofIt.PeaksSorted` | day_10/part1.c:201-231 | every array built is sorted |
| `HoofIt.PeaksReachable` | day_10/part1.c:169-176 | a square's array holds exactly the peaks some hiking trail from it reaches |
| `HoofIt.PeakVia` | day_10/part1.c:208-231 | a peak in the array of a lower square is in the array of a neighbour one higher |
| `HoofIt.MemoStore` | day_10/part1.c:233-235 | storing a square's array and size keeps every memoised entry right |
| `HoofIt.GetReachablePeaks` | day_10/part1.c:177-237 | `get_reachable_peaks` with the corrected down test `row + 1 < rows` (see "## Left out") returns the square's reachable peaks and their number, memoises them, and changes nothing when the square was already memoised |
| `HoofIt.ClimbsIff` | day_10/part1.c:209-227 | each neighbour test is the climbing step: on the map and one higher |
| `HoofIt.CheckNeighbour` | day_10/part1.c:208-231 | one neighbour test, with the corrected down test, and merge adds the neighbour's peaks when it is one higher, and leaves the memo sound |
| `HoofIt.MergeNeighbour` | day_10/part1.c:211-212 | the recursive call and the merge give the union with the neighbour's peaks |
| `HoofIt.SortedDistinct` | day_10/part1.c:245 | a sorted array has no repeated points |
| `HoofIt.ScoreCountsPeaks` | day_10/part1.c:148-153 | a trailhead's score is the number of distinct peaks its trails reach |
| `HoofIt.FreshRows` | day_10/part1.c:121-122 | the flattened squares of `n` rows number `n * cols` |
| `HoofIt.FreshMemo` | day_10/part1.c:134-140 | the freshly filled squares hold the heights and an empty, sound memo |
| `HoofIt.GetTotalTrailheadScore` | day_10/part1.c:112-167 | -1 for a map that is not rectangular; otherwise the sum of the scores of every height-0 square, climbing under the corrected down test |
| `HoofIt.NewSquares` | day_10/part1.c:121-141 | the filling loop fails exactly when some row's length differs, and otherwise fills every square with its height and no memo |
| `HoofIt.FillRow` | day_10/part1.c:134-140 | the inner filling loop fills one row |
| `HoofIt.RowTrailheads` | day_10/part1.c:146-155 | the inner scoring loop adds the scores of one row's trailheads, under the corrected down test, and keeps the memo sound |
| `PlutonianPebbles.NewNode` | day_11/part2.c:164-166 | a fresh trie node has no children and holds -1, the "unknown" value |
| `PlutonianPebbles.Insert` | day_11/part2.c:281-302 | `insert_trie` keeps the trie well formed |
| `PlutonianPebbles.GetInsertSame` | day_11/part2.c:281-331 | `get_trie` right after `insert_trie` of the same key gives the inserted value |
| `PlutonianPebbles.GetInsertOther` | day_11/part2.c:281-331 | inserting one key leaves every other key's value as it was |
| `PlutonianPebbles.NewNodeEmpty` | day_11/part2.c:317-331 | a fresh node answers -1 for every key, missing children included |
| `PlutonianPebbles.Log10` | day_11/part2.c:259-275 | `log_10` is -1 for n <= 0 and otherwise the digit count less one, with `10^log <= n < 10^(log+1)` |
| `PlutonianPebbles.SplitDigits` | day_11/part2.c:236-256 | `split_digits` splits exactly the numbers with an even digit count, and also every n <= 0 (whose `log_10` of -1 is odd under C's `%`); the halves are `n / 10^(d/2)` and `n % 10^(d/2)` |
| `PlutonianPebbles.SplitHalves` | day_11/part2.c:243-248 | the left half has half the digits and the right half is below `10^(d/2)` |
| `PlutonianPebbles.Count` | day_11/part2.c:192-229 | a stone always becomes at least one stone |
| `PlutonianPebbles.SumCountsAppend` | day_11/part2.c:171-178 | counts of a row split anywhere add up |
| `PlutonianPebbles.SumCountsBlink` | day_11/part2.c:203-221 | counting a row after one blink with one blink fewer gives the count of the row |
| `PlutonianPebbles.CountIsRowLength` | day_11/part2.c:157-184 | counting stone by stone equals the length of the row simulated blink by blink |
| `PlutonianPebbles.SumCountsOfZero` | day_11/part2.c:195-201 | with no blinks left every stone counts one |
| `PlutonianPebbles.StoneCache.constructor` | day_11/part2.c:160-167 | one empty trie per remaining blink count, all holding -1 |
| `PlutonianPebbles.StoneCache.ChildrenOfTheStone` | day_11/part2.c:192-229 | `children_of_the_stone` returns the number of stones the stone becomes, memo or not, and keeps every memo entry right |
| `PlutonianPebbles.StoneCache.UncachedChildren` | day_11/part2.c:211-228 | the uncached case applies the rules (0 to 1, split even digits, otherwise times 2024) and returns the right count |
| `PlutonianPebbles.StoneCache.Remember` | day_11/part2.c:224 | storing a right count keeps the memo right |
| `PlutonianPebbles.CountStones` | day_11/part2.c:158-184 | `count_stones` returns the length of the row after `blinks` blinks |
| `ClawContraption.Adjusted` | day_13/part2.c:83-84 | the parser moves the prize by 10000000000000 on both axes and leaves the buttons alone |
| `ClawContraption.MinTokens` | day_13/part2.c:128-154 | `min_tokens` returns 0 for a zero determinant, and any nonzero result is `3a + b` for press counts that solve both equations |
| `ClawContraption.SolutionFound` | day_13/part2.c:142-150 | the press counts computed by the exact divisions solve both equations |
| `ClawContraption.MinTokensComplete` | day_13/part2.c:138-153 | with a nonzero determinant and an integer solution, `min_tokens` returns its cost `3a + b` |
| `ClawContraption.SolutionUnique` | day_13/part2.c:142-150 | with a nonzero determinant the integer solution is unique, and both remainder tests pass on it and both divisions recover it |
| `ClawContraption.NegativePressesCharged` | day_13/part2.c:146-153 | as written, a solution with a negative press count is paid for: buttons (20, 10) and (30, 5) with the prize read as (40, 0) cost 3249999999999 |
| `ClawContraption.MinTokensNonNegative` | day_13/part2.c:128-154 | the corrected solver: a nonzero result is `3a + b` for a solution with no negative press count |
| `ClawContraption.MinTokensNonNegativeComplete` | day_13/part2.c:138-153 | the corrected solver pays for a non-negative solution when there is one |
| `RestroomRedoubt.Wrap` | day_14/part1.c:139-140 | the double truncating remainder lands in `[0, size)` and equals the mathematical remainder of `v * 100 + p`, negative velocities included |
| `RestroomRedoubt.Destination` | day_14/part1.c:136-142 | `get_destination` always lies in the 101 by 103 room |
| `RestroomRedoubt.WalkIsModular` | day_14/part1.c:133-142 | stepping a robot one second at a time with wrap-around puts it at its start plus `k` velocities, modulo the room |
| `RestroomRedoubt.DestinationIsWalk` | day_14/part1.c:136-142 | the closed form agrees with 100 single steps of the robot |
| `RestroomRedoubt.Quadrant` | day_14/part1.c:104-124 | the counter a destination increments: none exactly on a midline, and otherwise the quadrant given by the two strict comparisons with the middle |
| `RestroomRedoubt.CountsPartition` | day_14/part1.c:101-125 | every robot is counted in exactly one quadrant or on a midline |
| `RestroomRedoubt.EmptyQuadrantZero` | day_14/part1.c:127-130 | an empty quadrant makes the safety factor 0 |
| `RestroomRedoubt.FindTree` | day_14/part1.c:96-131 | `find_tree` returns the product of the four quadrant counts |
| `RestroomRedoubt.CountStep` | day_14/part1.c:103-123 | one more robot adds one to its own quadrant's counter and leaves the others |
| `RestroomRedoubt.ProductOfFour` | day_14/part1.c:127-129 | the product loop over the four counters multiplies them |
| `WarehouseWoes.Robot.constructor` | day_15/part1.c:141 | the robot starts at the given position |
| `WarehouseWoes.Set` | day_15/part1.c:189 | writing one cell changes that cell and no other, and keeps the map's shape |
| `WarehouseWoes.CellsAfterSet` | day_15/part1.c:189 | writing a cell adds it to the cells of the new character and takes it from those of every other |
| `WarehouseWoes.PushEnd` | day_15/part1.c:231-283 | the cells `try_move` recurses through: every cell before the end holds a box; the push succeeds exactly when the end is floor, is stopped exactly when the end is a wall or off the map, and is an error otherwise |
| `WarehouseWoes.Step` | day_15/part1.c:148-208 | one round of the move loop keeps the map's shape and the robot on the map, and gives up on an unknown move or object |
| `WarehouseWoes.ShiftBox` | day_15/part1.c:187-189 | a box written past the line and the first box cleared keep the walls and the number of boxes |
| `WarehouseWoes.StepKeeps` | day_15/part1.c:183-203 | a move keeps the walls and the number of boxes, and moves the robot at most one cell along the move, never onto a box or a wall |
| `WarehouseWoes.Run` | day_15/part1.c:148-208 | the loop runs until the NUL or the first move that gives up, keeping the map's shape and the robot on the map |
| `WarehouseWoes.RunKeeps` | day_15/part1.c:148-208 | however many moves run, the walls stay, the number of boxes stays, and the robot never ends on a box or a wall |
| `WarehouseWoes.GpsDecodes` | day_15/part1.c:132-135 | on a map narrower than 100 columns, `get_gps` gives back the row and the column |
| `WarehouseWoes.GridGpsSet` | day_15/part1.c:212-220 | rewriting a cell changes the GPS sum by that cell's GPS, added or taken away as it becomes or stops being a box |
| `WarehouseWoes.StepGps` | day_15/part1.c:183-196 | a move that pushes `k` boxes shifts the GPS sum by `k` times one cell's shift along the move; any other move keeps it |
| `WarehouseWoes.SameGrid` | day_15/part1.c:143 | two maps of the same shape that agree on every cell are equal |
| `WarehouseWoes.WriteCell` | day_15/part1.c:272 | writing a cell of the array changes the map as `Set` does |
| `WarehouseWoes.FindDestination` | day_15/part1.c:153-180 | the direction switch: unknown exactly for a character that is no move, the edge exactly when the step leaves the map, and otherwise the neighbouring cell |
| `WarehouseWoes.TryMove` | day_15/part1.c:231-283 | `try_move`: -1 for an unknown direction or object, 0 at a wall or the edge with the map unchanged, and 1 with a box written on the floor cell past the line |
| `WarehouseWoes.MoveRobot` | day_15/part1.c:150-207 | one round of the loop with the corrected test of `try_move`'s -1 (see "## Left out"): leaves the map and the robot `Step` gives, or reports that the function gives up |
| `WarehouseWoes.BoxGpsSum` | day_15/part1.c:210-220 | the final loops add the GPS coordinates of every box |
| `WarehouseWoes.GetGpsSum` | day_15/part1.c:143-222 | `get_gps_sum` with the corrected test of `try_move`'s -1 leaves the map and robot as the moves leave them and returns the boxes' GPS sum, or -1 once a move gives up |
| `WarehouseWoes.AsWrittenLosesBox` | day_15/part1.c:187-189 | where the caller's nonzero test of `try_move` differs from the corrected move, the move as written loses a box where the corrected one gives up |
| `WarehouseWoes.LostBoxExample` | day_15/part1.c:187-189 | on the map `.Ox` with the move `>`, the move as written erases the box and walks on; the corrected one gives up |
| `ReindeerMaze.CheckIsFound` | day_16/part1.c:277-280 | `check_is_found` is 0 or the heading's bit |
| `ReindeerMaze.MarkFound` | day_16/part1.c:263-267 | `mark_found` ORs the heading's bit into the cell's byte, changes no other byte, and the cell then tests found in that heading |
| `ReindeerMaze.OpenCells` | day_16/part1.c:228 | the cells a forward move may enter are exactly the `.` cells of the map |
| `ReindeerMaze.GetMinScorePaths` | day_16/part1.c:185-254 | `get_min_score_paths` returns the lowest score with which the end cell can be reached in any heading, the start facing east at score 0; the heap runs dry only when the end cannot be reached |
| `ReindeerMaze.SearchStart` | day_16/part1.c:189-197 | before the first pass nothing is found, the heap is empty and the start move is in hand at score 0 |
| `ReindeerMaze.PopStep` | day_16/part1.c:243-248 | popping the cheapest queued move restores the loop's invariant: the found states have their lowest scores and every queued move is a real move of the maze |
| `ReindeerMaze.NothingQueued` | day_16/part1.c:243 | an empty heap after a pass means the end cannot be reached |
| `ReindeerMaze.AtEnd` | day_16/part1.c:198 | the move in hand on the end cell has the lowest score of the end |
| `ReindeerMaze.Visit` | day_16/part1.c:200-240 | one pass up to the pop marks the move in hand found and queues every successor state that is not yet found at its score |
| `ReindeerMaze.SettleStep` | day_16/part1.c:201 | marking the move in hand keeps the found bits exact and its score the lowest for its state |
| `ReindeerMaze.PushMoves` | day_16/part1.c:203-240 | the three guarded pushes add moves to the heap and change nothing else of it; every pushed move is a move of the maze at its price, and every successor not yet found is pushed |
| `ReindeerMaze.NextPoint` | day_16/part1.c:205-226 | the heading switch gives the cell ahead, and the validity flag holds exactly when that cell is inside the map |
| `ReindeerMaze.PushForward` | day_16/part1.c:204-230 | the forward push queues the cell ahead at score plus 1 exactly when it is inside the map, `.`, and not found in this heading |
| `ReindeerMaze.PushTurn` | day_16/part1.c:232-240 | a turn push queues the same cell in the turned heading at score plus 1000 when that heading is not found |
| `ReindeerMaze.ForwardSound` | day_16/part1.c:229 | the forward push is a move of the maze at the price of a step |
| `ReindeerMaze.TurnSound` | day_16/part1.c:234-240 | a turn by `(d + 1) & 3` or `(d - 1) & 3` is a move of the maze at the price of a turn |
| `ReindeerPaths.NewFoundMap` | day_16/part2_attempt1.c:208-217 | every heading of every cell starts with score -1 and no parent flag |
| `ReindeerPaths.MarkFound` | day_16/part2_attempt1.c:329-334 | `mark_found` records the score and the parent flag of exactly one heading of one cell; `check_is_found` then returns that score |
| `ReindeerPaths.CheckForSolution` | day_16/part2_attempt1.c:285-287 | the best end score only goes down, and goes down exactly when the popped move is on the end cell with a lower score, to that score |
| `ReindeerPaths.SearchTies` | day_16/part2_attempt1.c:203-288 | when the loop stops on a popped score above the best, or the heap runs dry, the best end score is one the end is reached with, the least one when the start is not the end, and INT_MAX only when no route to the end scores below INT_MAX |
| `ReindeerPaths.TieStart` | day_16/part2_attempt1.c:218-224 | before the first pass nothing is found, the heap is empty and the best score is INT_MAX |
| `ReindeerPaths.TiePopStep` | day_16/part2_attempt1.c:276-287 | popping the cheapest move and checking it against the end keeps the loop's invariant |
| `ReindeerPaths.TieRanDry` | day_16/part2_attempt1.c:277 | the heap running dry after a pass leaves the best end score its meaning |
| `ReindeerPaths.TieExit` | day_16/part2_attempt1.c:226 | the loop stopping on a popped score above the best end score leaves the best its meaning |
| `ReindeerPaths.VisitTies` | day_16/part2_attempt1.c:228-274 | one pass up to the pop marks the move in hand and queues the forward move, also on a tie, and the turns not found |
| `ReindeerPaths.TieSettleStep` | day_16/part2_attempt1.c:229 | marking the move in hand keeps the found scores exact, its score the lowest for its state, and the best end score's meaning |
| `ReindeerPaths.PushMovesTies` | day_16/part2_attempt1.c:231-274 | the three guarded pushes only add moves of the maze at their prices, and every successor not yet found is pushed |
| `ReindeerPaths.PushTurnsTies` | day_16/part2_attempt1.c:266-274 | the left then the right turn push only add turns of the maze at the turn's price |
| `ReindeerPaths.CombinePushes` | day_16/part2_attempt1.c:231-274 | the forward and turn pushes together are sound, score above the move in hand, and cover every successor not found |
| `ReindeerPaths.PushForwardTie` | day_16/part2_attempt1.c:232-264 | the forward push onto an in-bounds `.` cell whose heading is not found, or found with exactly this score, in which case the heading's parent flag is set |
| `ReindeerPaths.ForwardOnto` | day_16/part2_attempt1.c:256-263 | the push onto the open cell ahead: queued when the heading is not found or found with this move's score |
| `ReindeerPaths.MarkTie` | day_16/part2_attempt1.c:258-260 | the found check returns the heading's recorded score, and a tie sets its parent flag and changes nothing else |
| `ReindeerPaths.TieMarkKeeps` | day_16/part2_attempt1.c:259-260 | the tie mark rewrites a heading with the score it already has, so the found states stay the same |
| `ReindeerPaths.PushTurnTie` | day_16/part2_attempt1.c:268-274 | a turn push queues the same cell in the turned heading when that heading is not found |
| `ReindeerPaths.PointVec.constructor` | day_16/part2_attempt1.c:308 | `newPointVec` is empty |
| `ReindeerPaths.PointVec.AppendIfNotExists` | day_16/part2_attempt1.c:453-459 | `append_if_not_exists` appends the point only when it is absent, so the vector stays free of duplicates |
| `ReindeerPaths.Behind` | day_16/part2_attempt1.c:473-487 | the cell behind `p` for heading `d` is the one a forward move in `d` leaves to reach `p` |
| `ReindeerPaths.RecursionTargetsAsWritten` | day_16/part2_attempt1.c:466-495 | the cells the loop as written recurses into, with `next_row` and `next_col` carried over from one flag to the next: at most one per remaining heading |
| `ReindeerPaths.RecursionTargets` | day_16/part2_attempt1.c:469-495 | the intended targets: exactly the cells behind `p` for each set flag, never `p` itself |
| `ReindeerPaths.AsWrittenRevisits` | day_16/part2_attempt1.c:466-495 | with the east and west flags set, the loop as written steps back onto `p` itself and so recurses on the same cell; the intended targets are the two neighbours |
| `ReindeerPaths.AsWrittenDiagonal` | day_16/part2_attempt1.c:466-490 | with the east and north flags set, the loop as written recurses into the diagonal square one row down and one column left, which the intended targets never hold |
| `ReindeerPaths.ClosedHoldsLinked` | day_16/part2_attempt1.c:461-497 | a set closed under parent links that holds a cell holds every cell its chain of links reaches |
| `ReindeerPaths.LinkedPrepend` | day_16/part2_attempt1.c:494 | a parent link followed by a chain of links is a chain |
| `ReindeerPaths.MakeMinPaths` | day_16/part2_attempt1.c:461-497 | `make_min_paths` with each cell behind computed from the square (the corrected back-walk; see "## Left out") adds the cell and every cell its parent flags lead back to, and nothing else, keeping the vector free of duplicates |
| `ReindeerPaths.CollectedAreLinked` | day_16/part2_attempt1.c:307-310 | collected with the corrected back-walk from the end into an empty vector: exactly the cells the parent flags lead back to |
| `ReindeerPaths.GetMinScorePathsTies` | day_16/part2_attempt1.c:201-318 | the best end score with its meaning; a found map `fs` with one well-formed entry per cell; the squares its parent flags lead back to from the end, once each, collected with the corrected back-walk and marked `O` on the map with the rest of the map unchanged |
| `ReindeerPaths.MarkSquares` | day_16/part2_attempt1.c:311-312 | the final loop marks each collected square 'O' and leaves every other cell as it was |
| `RamRun.OpenCells` | day_18/part1.c:107-129 | the open cells are exactly the cells of the grid that no obstacle falls on |
| `RamRun.PushOpenNeighbours` | day_18/part1.c:143-154 | the four guarded pushes add exactly the moves onto the `.` neighbours at one more step, and every queued move is a real walk |
| `RamRun.PushNeighbour` | day_18/part1.c:144-145 | one guarded push adds the move onto the neighbour when it is inside the grid and `.` |
| `RamRun.PushSound` | day_18/part1.c:145 | a pushed move onto an open neighbour of a reached cell is a real walk |
| `RamRun.NeighbourCover` | day_18/part1.c:143-154 | every open neighbour not yet visited is among the moves queued, at one more step |
| `RamRun.GetMinSteps` | day_18/part1.c:100-178 | `get_min_steps`: -1 when an obstacle lies outside the grid; on a grid of size 2 or more the fewest steps to the far corner, or -1 exactly when no walk reaches it; -1 on a 1 by 1 grid |
| `RamRun.OneCellGridReachable` | day_18/part1.c:133-165 | on a 1 by 1 grid without obstacles the far corner is the start, reached in 0 steps, where `get_min_steps` answers -1 |
| `RamRun.GetMinStepsCorrected` | day_18/part1.c:100-178 | with the start also recognised as the far corner: the fewest steps, or -1 exactly when no walk reaches it, on every grid size |
| `RamRun.PlaceObstacles` | day_18/part1.c:106-129 | the grid set-up succeeds exactly when every obstacle is inside, and then holds `#` on the obstacles and `.` elsewhere |
| `RamRun.Search` | day_18/part1.c:133-166 | the search loop returns the fewest steps to the far corner, or -1 exactly when the heap runs dry, which happens only when no walk reaches it |
| `RamRun.SearchStart` | day_18/part1.c:133 | the search begins at the start cell with nothing visited and the heap empty |
| `RamRun.FoundShortest` | day_18/part1.c:160-165 | the far corner popped with the least queued steps is reached in that many steps and in no fewer |
| `RamRun.NothingLeft` | day_18/part1.c:134 | with the heap run dry, the far corner is not reachable |
| `RamRun.Expand` | day_18/part1.c:136-158 | one pass visits the cell if it is still `.`, queues its neighbours and pops the next move, keeping the loop's invariant |
| `RamRun.VisitCell` | day_18/part1.c:140-154 | the visiting branch settles the cell at its step count, marks it `O` and queues its `.` neighbours |
| `RamRun.Visit` | day_18/part1.c:141 | marking the cell `O` changes no other cell |
| `RamRun.PopSound` | day_18/part1.c:158 | `pop_pq` returns the empty sentinel, or a queued move no heavier than any move left |
| `RaceCondition.GetPointInDirection` | day_20/part1.c:498-519 | `get_point_in_direction` gives the neighbour one step in the heading for the four headings, and an error for any other value |
| `RaceCondition.Back` | day_20/part1.c:379-399 | the back-step of `mark_min_path`: stepping from it in the heading returns to the cell |
| `RaceCondition.StepThenBack` | day_20/part1.c:379-399 | a step in a heading followed by the back-step is the identity |
| `RaceCondition.ContainsPoint` | day_20/part1.c:526-532 | `contains_point` holds exactly when one of the first `arr_size` points is the point |
| `RaceCondition.OnesCount` | day_20/part1.c:372 | `stdc_count_ones_uc` of a byte is between 0 and 8 |
| `RaceCondition.TrailingZeros` | day_20/part1.c:377 | `stdc_trailing_zeros_uc` names the lowest set bit, and is 8 exactly for the zero byte |
| `RaceCondition.SingleBit` | day_20/part1.c:372-377 | a byte with one bit set is that bit, and the trailing-zero count names it |
| `RaceCondition.OneHot` | day_20/part1.c:349 | the bit written for a heading has one bit set and is read back as that heading |
| `RaceCondition.MarkFound` | day_20/part1.c:345-350 | `mark_found` ORs in the heading's bit, ignores a negative heading, and changes no other cell |
| `RaceCondition.OpenCells` | day_20/part1.c:435-445 | the cells a walk may use are exactly the `.` cells of the map and the start |
| `RaceCondition.ParentBits` | day_20/part1.c:371-377 | the found byte of a settled cell other than the start has one bit set, naming the heading back to a parent settled one step earlier |
| `RaceCondition.NeighbourCover` | day_20/part1.c:434-445 | every open neighbour of a settled cell not yet settled is among the moves queued from it, at one more step |
| `RaceCondition.NeighbourMovesSound` | day_20/part1.c:434-445 | every move queued from a settled cell is a real walk of that length |
| `RaceCondition.Search` | day_20/part1.c:413-450 | the search loop returns the fewest steps from the start to the end, with the found map a shortest-path tree, or -1 exactly when the end cannot be reached |
| `RaceCondition.SearchStart` | day_20/part1.c:415-418 | before the first pass nothing is found, nothing queued, and the start is in hand |
| `RaceCondition.Expand` | day_20/part1.c:420-449 | one pass skips a found cell, or settles it, stops at the end, and queues its neighbours; the loop's invariant holds after it and the open cells left to settle decrease |
| `RaceCondition.Skip` | day_20/part1.c:422-423 | the skip branch pops the next move and keeps the invariant |
| `RaceCondition.Visit` | day_20/part1.c:425-449 | the marking branch settles the cell, stops at the end, or queues the neighbours and pops the next move |
| `RaceCondition.Settle` | day_20/part1.c:425 | `mark_found` in the search settles the unfound cell at the move's steps with the move's heading bit |
| `RaceCondition.SettleStep` | day_20/part1.c:422-425 | the least move's steps bound every walk to its cell, and the tree grows by that cell |
| `RaceCondition.TreeSettle` | day_20/part1.c:349 | settling an unfound cell sets its byte to one bit and keeps the tree |
| `RaceCondition.PushAll` | day_20/part1.c:434-445 | the four guarded pushes add exactly the moves whose guards held, each a real walk |
| `RaceCondition.PopSound` | day_20/part1.c:449 | `pop_pq` returns the empty sentinel or a real walk no heavier than any move left |
| `RaceCondition.MarkMinPath` | day_20/part1.c:361-402 | `mark_min_path` writes the cell and its predecessors from the found bits back to the start, neighbours one after another, each settled, marks them `O`, and leaves later entries of the path alone |
| `RaceCondition.ReportPath` | day_20/part1.c:453-458 | the reported path has `min_steps + 1` points and is a shortest walk from the start to the end, marked `O` on the map |
| `RaceCondition.FindBestPath` | day_20/part1.c:411-468 | `find_best_path` returns a shortest path from the start to the end, marked `O` on the map, with its length; length 0 exactly when the end cannot be reached or is the start |
| `RaceCondition.FindBestPathCorrected` | day_20/part1.c:411-468 | with a start that is also the end answered by the one-point path, the length is 0 exactly when the end cannot be reached |
| `RaceCondition.IsStart` | day_20/part1.c:453 | the end found at 0 steps is the start |
| `RaceCondition.PathIsWalk` | day_20/part1.c:361-402 | the filled path is a walk through open cells |
| `RaceCheats.RingOnRadius` | day_20/part2.c:587-655 | every cell of the ring is at taxicab distance `distance` from the centre, and its position along the ring reads back |
| `RaceCheats.RingCovers` | day_20/part2.c:587-655 | every cell at distance `d >= 1` from the centre is on the ring |
| `RaceCheats.RingDistinct` | day_20/part2.c:587-655 | the ring visits no cell twice |
| `RaceCheats.FindPointsAtTaxicabDistance` | day_20/part2.c:582-659 | `find_points_at_taxicab_distance` returns exactly `4 * distance` points, in ring order, each at that distance from the centre and pairwise distinct |
| `RaceCheats.RingHitsStep` | day_20/part2.c:563-569 | one more ring cell adds one to the count when it is on the map with a recorded distance high enough, and nothing otherwise |
| `RaceCheats.WithinStep` | day_20/part2.c:556-572 | the cheats shorter than `d + 1` are those shorter than `d` plus the hits on the ring of radius `d`, disjoint from them |
| `RaceCheats.WithinAll` | day_20/part2.c:556 | where the distance loop stops, the cheats it has counted are all the counted cheats |
| `RaceCheats.CountRingHits` | day_20/part2.c:558-571 | one pass of the distance loop counts the cells of the ring that are in bounds with a recorded distance of at least `min_saved_from_point + distance` |
| `RaceCheats.CountShortcutsFromPoint` | day_20/part2.c:550-575 | `count_shortcuts_from_point` counts the landing cells of cheats 2 to 20 steps long, shorter than `min_saved_from_point`, in bounds, and landing on a recorded distance of at least `min_saved_from_point` plus their length |
| `RaceCheats.Stamp` | day_20/part2.c:487-488 | the distance-map fill keeps the map's size |
| `RaceCheats.StampRead` | day_20/part2.c:487-488 | on a path that visits no cell twice, the map holds each path cell's index and the old value elsewhere |
| `RaceCheats.LandingsCount` | day_20/part2.c:567-568 | on a path that visits no cell twice, each cheat lands on its own cell, so counting cells counts cheats |
| `RaceCheats.ShortcutsOnPath` | day_20/part2.c:495 | the cells a path index's shortcuts land on, read through the distance map, are the landings of its helpful cheats |
| `RaceCheats.CheatsStep` | day_20/part2.c:493-496 | the shortcuts counted from path index `i` are its helpful cheats |
| `RaceCheats.CheatsAll` | day_20/part2.c:493 | no helpful cheat starts within `MIN_SAVE + 2` cells of the end, so the loop's bound loses none |
| `RaceCheats.RouteCells` | day_20/part2.c:482 | the cells of the best path lie on the map and are visited once each |
| `RaceCheats.FillDistanceMap` | day_20/part2.c:486-488 | after the fill, each cell of the best path holds its index and every other cell 0 |
| `RaceCheats.SumShortcuts` | day_20/part2.c:493-496 | the counting loop adds up to the number of helpful cheats along the path |
| `RaceCheats.CountHelpfulCheats` | day_20/part2.c:478-501 | `count_helpful_cheats` takes the path `find_best_path` gives, a shortest one, or none exactly when the end cannot be reached or is the start, and returns the number of cheats 2 to 20 steps long along it that save at least 100 steps |
| `MonkeyMarket.NextNumber` | day_22/part1.c:76-98 | `get_next_number` always returns a value in `[0, 2^24)` |
| `MonkeyMarket.MulMix64Agrees` | day_22/part1.c:79-84 | the shift-and-mask step agrees with the puzzle's "multiply by 64, mix, prune modulo 16777216" |
| `MonkeyMarket.DivMix32Agrees` | day_22/part1.c:86-89 | the shift-and-mask step agrees with "divide by 32, round down, mix, prune" |
| `MonkeyMarket.MulMix2048Agrees` | day_22/part1.c:91-95 | the overflowing shift-and-mask step agrees with "multiply by 2048, mix, prune" |
| `MonkeyMarket.ModuloIsMask` | day_22/part1.c:83-84 | the prune by AND with `2^24 - 1` is the remainder modulo 16777216 |
| `MonkeyMarket.NextNumberReadsLow24` | day_22/part1.c:92-95 | only the low 24 bits of the input matter, so the overflow of `num << 11` and of the first shift loses nothing |
| `MonkeyMarket.Iterate` | day_22/part1.c:65-66 | after at least one hash the number lies in `[0, 2^24)` |
| `MonkeyMarket.FinalSumBounds` | day_22/part1.c:61-69 | the sum of `n` final values lies in `[0, n * (2^24 - 1)]` |
| `MonkeyMarket.HashSeed` | day_22/part1.c:64-66 | the inner loop applies exactly 2000 hashes to the seed |
| `MonkeyMarket.SecretNumberSum` | day_22/part1.c:59-71 | `get_secret_number_sum` is the sum of every seed's value after 2000 hashes |
| `CrossedWires.Atoi` | day_24/part1.c:190 | `atoi(name + 1)` on a two-digit wire number is below 100 |
| `CrossedWires.IndexByStr` | day_24/part1.c:162 | `INDEX_BY_STR` of a three-letter name is a position in the `26 * 26 * 26` table |
| `CrossedWires.IndexInjective` | day_24/part1.c:162 | two names share a table entry exactly when they are the same name |
| `CrossedWires.Long` | day_24/part1.c:239 | `(long long)result` of a gate's result is 0 or 1 |
| `CrossedWires.Apply` | day_24/part1.c:224-235 | each gate's result is the AND, OR or XOR of two 0/1 bits, and is itself 0 or 1 |
| `CrossedWires.Driver` | day_24/part1.c:238-241 | the first gate whose result is the wire, or none, with no earlier gate driving it |
| `CrossedWires.OpValue` | day_24/part1.c:224-235 | the value a gate computes in the circuit is 0 or 1 |
| `CrossedWires.WireValue` | day_24/part1.c:188-212 | the value on a gate's operand, an input bit or the value of the gate that drives it, is 0 or 1 |
| `CrossedWires.OperationListNode.constructor` | day_24/part1.c:145-146 | a new node holds its operation and no successor |
| `CrossedWires.ToLinkedList` | day_24/part1.c:135-160 | `to_linked_list` builds a fresh node per operation in order, head to tail; size 0 gives a null head and tail |
| `CrossedWires.FirstReady` | day_24/part1.c:196-204 | the number of gates the queue sends back before it evaluates one: each earlier gate has an operand not set yet |
| `CrossedWires.FirstReadyRotate` | day_24/part1.c:196-204 | sending a gate that is not ready to the back brings the first ready gate one place nearer, which is why the loop ends |
| `CrossedWires.SomeReady` | day_24/part1.c:182-245 | in a circuit some waiting gate is always ready: the one of least rank |
| `CrossedWires.ReadKnown` | day_24/part1.c:188-215 | the solver reads -1 exactly for an operand not set yet, and the operand's value otherwise |
| `CrossedWires.StoreResult` | day_24/part1.c:240-241 | the table after a gate stores its result holds the right value for every done gate and -1 for the rest |
| `CrossedWires.OutputBit` | day_24/part1.c:238-239 | a gate on `zNN` ORs its bit into bit `NN` of `z` |
| `CrossedWires.OnesStep` | day_24/part1.c:238-241 | one more gate done adds its bit to `z` exactly when it drives a `z` wire with value 1 |
| `CrossedWires.Requeue` | day_24/part1.c:200-203 | a gate with an operand not set yet goes to the back of the list |
| `CrossedWires.PerformAllOperations` | day_24/part1.c:170-248 | `perform_all_operations` returns the `z` whose set bits are exactly those of the `z` wires whose gates compute 1 |
| `CrossedWires.Positions` | day_24/part1.c:176 | the queue starts with every gate, in input order |
| `CrossedWires.Start` | day_24/part1.c:172-179 | before the loop every gate waits in input order, every table entry is -1 and `z` is 0 |
| `CrossedWires.Run` | day_24/part1.c:182-245 | the loop from a list of the gates not done yet ends with `z` holding the bits of every gate |
| `CrossedWires.Step` | day_24/part1.c:184-244 | one turn of the loop evaluates the head gate and drops it, or sends it to the back, and the list shrinks or the first ready gate comes nearer |
| `CrossedWires.Decide` | day_24/part1.c:188-222 | the head gate reads -1 for an operand exactly when it is not the first ready gate, and the operands' values otherwise |
| `CrossedWires.Rotate` | day_24/part1.c:196-222 | a gate that is not ready goes to the back of the list and the first ready gate comes nearer |
| `CrossedWires.Evaluate` | day_24/part1.c:224-244 | a ready gate is evaluated, its result stored, and it leaves the list |
| `CrossedWires.Store` | day_24/part1.c:237-241 | the result goes to its bit of `z` for a `z` wire, and to the table otherwise |
| `CrossedWires.ChainPop` | day_24/part1.c:243-244 | dropping the head leaves the list from its successor |
| `CrossedWires.AllDone` | day_24/part1.c:182 | once every gate is done, `z`'s bits are those of every gate that sets one |

## Left out

- Input parsing (`parse_input` and the file reading in every solver), `main`, `print_map` and every other printing function: they are I/O. The solvers' inputs become parameters: grids as `array2`, sequences of records, or the size arrays.
- `malloc`, `realloc` and `free`: the model uses fresh arrays and objects. A failed allocation and the `exit` calls on it are not modelled.
- Other process exits: they become preconditions, or error results where the caller can see them.
  - `get_point_in_direction` and `mark_min_path` exit on a bad direction or a cell without exactly one parent bit.
  - `delete_node` exits on an inconsistent list, and `move_node` on a NULL node. The sequence model of that list cannot be inconsistent.
- C integer widths are unbounded in the model, except where the code relies on them:
  - `size_t` cursors of day 9 part 1, in the as-written members `DiskFragmenter.EndCursorAsWritten` and `DiskFragmenter.RoundAsWritten` only;
  - `unsigned long long` checksums, taken modulo 2^64;
  - the `short` peak coordinates of day 10;
  - the 32-bit hash state of day 22;
  - the 64-bit `z` of day 24.

  Other overflows are not modelled: scores, step counts, the day 13 products, the day 22 sum, the `long long` stones of day 11 (`2024 * stone` and the `long long` stone counts), and the `short` run sizes of day 9 part 2 (next line).
- `WholeFiles.LinkedList.AbsorbPrevNode` and `WholeFiles.LinkedList.AbsorbNextNode`: a run's size is a C `short`, and merging free runs adds sizes together. The model keeps sizes unbounded, so it does not capture the wrap past 32767 of a merged free run that long.
- `BridgeRepair.ValidValuesIffSolvable`, `BridgeRepair.SolutionFromSearch` and `BridgeRepair.SearchFindsSolution`: these hold for positive operands only, as the puzzle's are. `BridgeRepair.ValidValues` itself takes any nonzero `long long` operand, as `%lld` parses them. With a negative operand the correspondence fails: `BridgeRepair.NegativeOperandMissed` shows it. A zero operand is excluded because `target % 0` is undefined behaviour.
- `ReindeerMaze.GetMinScorePaths`: the C loop has no bound. It pops until it stands on the end cell and peeks at an empty heap when it runs dry. The model takes a `fuel` step budget and reports `OutOfFuel` when the budget is spent, and `HeapEmpty` in place of the empty peek.
- `ReindeerPaths.SearchTies`: a `fuel` budget bounds the loop, as in part 1.
  - When the start is the end, only soundness of the best end score is stated, not that it is least. The C code never compares the initial state with the end.
- `ReindeerPaths.MakeMinPaths`: the recursion ignores headings and can cycle in a corridor, so a `fuel` budget bounds it and the result is `ok == false` when the budget runs out.
- `ReindeerPaths.GetMinScorePathsTies`: the squares are proved to be exactly those the parent flags of `fs` lead back to from the end, where `fs` is the found map the search left.
  - The contract states only that `fs` has one well-formed entry per cell. The search does not carry out what its scores and parent flags mean, so the contract does not say which flags those are.
  - That these are exactly the squares on cheapest routes, the puzzle's answer, is not proved.
- `ReindeerPaths.GetMinScorePathsTies`, `ReindeerPaths.MakeMinPaths` and `ReindeerPaths.CollectedAreLinked`: the top level collects the squares with the corrected back-walk, where `get_min_score_paths` (day_16/part2_attempt1.c:310) runs `make_min_paths` as written. As written, `next_row` and `next_col` carry over from one heading to the next (see "## Findings"). So wherever a tie joins from two headings, the C marks other squares: with the east and north flags it marks the diagonal square, and with the east and west flags it recurses on the square itself. `ReindeerPaths.RecursionTargetsAsWritten`, `ReindeerPaths.AsWrittenRevisits` and `ReindeerPaths.AsWrittenDiagonal` model that loop; the squares it marks are not modelled.
- `HoofIt.GetReachablePeaks`, `HoofIt.CheckNeighbour`, `HoofIt.RowTrailheads` and `HoofIt.GetTotalTrailheadScore`: they climb under the corrected down test `row + 1 < rows`, where day_10/part1.c:227 compares the row with the column count (see "## Findings"). On a map with more rows than columns the C refuses down steps that the model takes: on the 10 by 1 map `0` to `9` the C scores 0 and the model 1. `HoofIt.GuardAsWritten` and `HoofIt.DownGuardExamples` model the test as written.
- `WarehouseWoes.MoveRobot` and `WarehouseWoes.GetGpsSum`: a -1 from `try_move` makes the model give up, and `GetGpsSum` returns -1. The C loop (day_15/part1.c:187-189) takes -1 as success: it writes `.` over the box, moves the robot and goes on (see "## Findings"). On the row `.Ox` with the move `>` the C returns 0 with the robot on the erased box. `WarehouseWoes.AsWrittenLosesBox` and `WarehouseWoes.LostBoxExample` model that move.
- `WholeFiles.CompressedChecksum`: the search starts from the last file id, where day_09/part2.c:146 starts from `tail->id`. That is -1 when the map ends with free space, and then no file moves (see "## Findings"): for the map `1213` the C returns 3 and the model 1. `WholeFiles.CompactedAsWritten` and `WholeFiles.TrailingFreeExample` model the start as written.
  - It also requires a nonempty map. On an empty map the C dereferences a NULL tail at part2.c:146.
- `PrintQueue.CorrectedInOrder`: the corrected update is proved in order only when the rules order its pages strictly and totally. The puzzle input promises this, the code does not check it.
- `GuardGallivant.ContainsLoop`: the result is tied to a walk of rows times columns moves, exactly as the code bounds it. That this bound is long enough to find every loop is not proved.
  - It runs on the corrected move (next lines): a boxed-in guard ends the walk and gives 0, where the C recursion never returns.
- `GuardGallivant.Next`: the corrected move.
  - On an obstacle ahead, `move_guard` and `move_guard_with_direction` (day_06/part2.c:211-215, 388-392) turn and call themselves with no limit. A guard boxed in on four sides therefore sends them on forever, although their doc comment promises -1 for a stuck guard (see "## Findings").
  - `Next` gives none there, and every member that moves the guard inherits that.
  - `GuardGallivant.BoxedNeverReturns` and `GuardGallivant.BoxedExample` model the recursion as written. `GuardGallivant.AsWrittenAgrees` shows it agrees with `Next` for a guard that is not boxed in.
- `GuardGallivant.TurnAtObstacles`: gives up after four turns and reports `'#'` for a boxed-in guard, where the C turns on without limit.
- `GuardGallivant.MoveGuard`: returns -1 for a boxed-in guard, where `move_guard` never returns.
- `GuardGallivant.MoveGuardWithDirection`: returns -1 for a boxed-in guard, where `move_guard_with_direction` never returns.
- `GuardGallivant.UniqueVisitedTiles`: its walk ends when the guard is boxed in, where `unique_visited_tiles` never gets an answer back.
- `GuardGallivant.ObstructionsThatCreateLoops`: an added obstacle that boxes the guard in counts as no loop, where `obstructions_that_create_loops` never gets past that position. The 3 by 3 map of `GuardGallivant.BoxedExample` shows one.
- `DiskFragmenter.CompressedChecksum`: runs signed cursors.
  - On the map `02` and on the empty map, the C's `size_t` end cursor wraps below 0 (day_09/part1.c:110, 129), and the next round reads past `files`. The model stops with checksum 0.
  - `DiskFragmenter.EndCursorAsWritten`, `DiskFragmenter.RoundAsWritten` and `DiskFragmenter.UnderflowExample` model the cursors as written.
- `CrossedWires.PerformAllOperations`: the gates must form a circuit.
  - Every input wire is driven, each wire has one driver, and a ghost rank orders the gates.
  - On a cyclic or undriven input the C work queue loops forever, or stops when a single waiting gate is left. In that case `head->next` is NULL when it is sent back, so the loop ends with that gate unevaluated.
- `RamRun.GetMinSteps`: requires a grid size of at least 1, or at least one obstacle. With neither, the C code reads the start cell of an empty grid.
- `ClawContraption.MinTokens`: requires `Defined`, a nonzero B button `y`. C's `% 0` there is undefined behaviour.
- `MonkeyMarket.HashSeed`: works on the 32-bit pattern of the seed. For a negative seed, C's first `<<` is undefined behaviour; the model gives the two's-complement result.
- The list of day 9 part 2 is a sequence of runs held in a class field. A node is its position and NULL is -1, so the model has no aliasing between nodes. The day 24 work queue keeps real linked nodes.
- `mark_found` on a negative heading (day 20 part 1) is modelled as leaving the flags unchanged, as the code does. No caller passes one.
- The day 9 part 1 loop reads `free_space[files_size - 1]`, one entry past the parsed gaps. The model reads it as 0; any value ends the loop the same way.
- The repository's other solver files are not part of this model: the other parts of the modelled days and the remaining days. The same holds for its test drivers and the shared `linked_list.c`, `trie.c` and `vector_template.h`. Vector appends are modelled as sequence appends.

## Findings

| source | as written | input that shows it | evidently intended | confidence | as-written member | corrected member |
|---|---|---|---|---|---|---|
| day_13/part2.c:142-153 | `min_tokens` pays for a solution with a negative number of presses | buttons A (20, 10), B (30, 5), prize read as (40, 0): A 1249999999999 times, B -499999999998 times, 3249999999999 tokens | a machine needing negative presses cannot be won and costs 0 | medium, not executed | `ClawContraption.NegativePressesCharged` | `ClawContraption.MinTokensNonNegative`, `ClawContraption.MinTokensNonNegativeComplete` |
| day_18/part1.c:104-177 | the target is only compared with a popped move, never with the start | a 1 x 1 grid without obstacles: answer -1 | 0 steps, since the start is the far corner | high, not executed | `RamRun.GetMinSteps`, `RamRun.OneCellGridReachable` | `RamRun.GetMinStepsCorrected` |
| day_20/part1.c:453-463 | a path is reported only when `min_steps > 0` | start equal to end: no path, size 0 | the one-point path, size 1 | medium, not executed | `RaceCondition.FindBestPath` | `RaceCondition.FindBestPathCorrected` |
| day_16/part2_attempt1.c:466-490 | `next_row` and `next_col` keep their values from one heading to the next | a square with east and west parent flags set: the second step lands back on the square itself | each heading's cell behind is computed from the square | high, not executed | `ReindeerPaths.RecursionTargetsAsWritten`, `ReindeerPaths.AsWrittenRevisits`, `ReindeerPaths.AsWrittenDiagonal` | `ReindeerPaths.RecursionTargets`, `ReindeerPaths.MakeMinPaths` |
| day_06/part2.c:211-215 | at an obstacle the move turns and calls itself with no limit | a 3 x 3 map, guard at the centre facing up, obstacles above, left and right, new obstacle below: endless recursion | a boxed-in guard is reported (-1) | high, not executed | `GuardGallivant.BoxedNeverReturns`, `GuardGallivant.BoxedExample` | `GuardGallivant.Next`, `GuardGallivant.MoveGuard` |
| day_15/part1.c:187-189 | the caller treats `try_move`'s -1 as a successful push | the row `.Ox`, robot on the left, move `>`: the box is erased | -1 is a failed move and the map is left unchanged | medium, not executed | `WarehouseWoes.AsWrittenLosesBox`, `WarehouseWoes.LostBoxExample` | `WarehouseWoes.Step`, `WarehouseWoes.TryMove` |
| day_09/part1.c:108-137 | the `size_t` end cursor wraps below 0 | disk map `02`: the cursor wraps to 2^64 - 1 and reads past `files`; the empty map reads `files[0]` | signed cursors: the loop ends and the checksum is 0 | high, not executed | `DiskFragmenter.RoundAsWritten`, `DiskFragmenter.UnderflowExample` | `DiskFragmenter.CompressedChecksum`, `DiskFragmenter.CorrectedExample` |
| day_10/part1.c:227 | the down step compares the row with the column count | a map 1 row high and 2 columns wide reads one past the end; a map 3 rows high and 2 wide never steps down from row 1 | the row is compared with the row count | high, not executed | `HoofIt.GuardAsWritten`, `HoofIt.DownGuardExamples` | `HoofIt.Guard`, `HoofIt.GetReachablePeaks` |
| day_09/part2.c:146-149 | the first file tried is the tail node's id, which is -1 when the map ends with free space | disk map `1213`: nothing moves, checksum 3 | start from the highest file id: file 1 moves, checksum 1 | high, not executed | `WholeFiles.CompactedAsWritten`, `WholeFiles.TrailingFreeExample` | `WholeFiles.Compacted`, `WholeFiles.TrailingFreeCorrected` |
