// Day 20, part 1 (shared with part 2): the single best path through the
// racetrack.  A step-keyed search over the '.' cells records, for each cell
// it settles, one bit naming the direction it was entered from; the path is
// then read backwards from the end along those bits.

module RaceCondition {
  import opened MinHeap
  import opened GridWalk
  import opened CArith
  import opened FlatGrid
  import opened Optional

  const EAST: int := 0
  const NORTH: int := 1
  const WEST: int := 2
  const SOUTH: int := 3


  /** The direction of the step from `p` to its neighbour `q`. */
  function Heading(p: Point, q: Point): int {
    if q.col > p.col then EAST
    else if q.row < p.row then NORTH
    else if q.col < p.col then WEST
    else SOUTH
  }

  /** `get_point_in_direction`: the neighbour one step in `dir`; any value
    * other than the four directions is an error. */
  function GetPointInDirection(p: Point, dir: int): (r: Option<Point>)
    ensures r.Some? <==> 0 <= dir < 4
    ensures r.Some? ==> Adjacent(p, r.value) && Heading(p, r.value) == dir
  {
    if dir == EAST then Some(Point(p.row, p.col + 1))
    else if dir == NORTH then Some(Point(p.row - 1, p.col))
    else if dir == WEST then Some(Point(p.row, p.col - 1))
    else if dir == SOUTH then Some(Point(p.row + 1, p.col))
    else None
  }

  /** The back-step of `mark_min_path`: the cell a move heading `dir` came
    * from, so that stepping from it in `dir` returns to `p`. */
  function Back(p: Point, dir: int): (r: Point)
    requires 0 <= dir < 4
    ensures GetPointInDirection(r, dir) == Some(p)
  {
    if dir == EAST then Point(p.row, p.col - 1)
    else if dir == NORTH then Point(p.row + 1, p.col)
    else if dir == WEST then Point(p.row, p.col + 1)
    else Point(p.row - 1, p.col)
  }

  /** Stepping in a direction and back again is the identity. */
  lemma StepThenBack(p: Point, dir: int)
    requires 0 <= dir < 4
    ensures Back(GetPointInDirection(p, dir).value, dir) == p
  {
  }

  /** `contains_point`: a linear scan of the first `arrSize` points. */
  method ContainsPoint(arr: array<Point>, arrSize: int, p: Point) returns (found: bool)
    requires arrSize <= arr.Length
    ensures found <==> exists i :: 0 <= i < arrSize && arr[i] == p
  {
    var i := 0;
    while i < arrSize
      invariant 0 <= i <= if arrSize < 0 then 0 else arrSize
      invariant forall j :: 0 <= j < i ==> arr[j] != p
    {
      if arr[i].row == p.row && arr[i].col == p.col {
        return true;
      }
      i := i + 1;
    }
    return false;
  }

  // ----- The found bits -----

  function BitAt(b: bv8, i: int): int
    requires 0 <= i < 8
  {
    if b & Bit(i) != 0 then 1 else 0
  }

  /** `stdc_count_ones_uc`. */
  function OnesCount(b: bv8): (r: int)
    ensures 0 <= r <= 8
  {
    BitAt(b, 0) + BitAt(b, 1) + BitAt(b, 2) + BitAt(b, 3) + BitAt(b, 4) + BitAt(b, 5) + BitAt(b, 6) + BitAt(b, 7)
  }

  /** `stdc_trailing_zeros_uc`: 8 for the zero byte. */
  function TrailingZeros(b: bv8): (r: int)
    ensures 0 <= r <= 8
    ensures r < 8 ==> b & Bit(r) != 0 && forall i :: 0 <= i < r ==> b & Bit(i) == 0
    ensures r == 8 <==> b == 0
  {
    if b & 1 != 0 then 0
    else if b & 2 != 0 then 1
    else if b & 4 != 0 then 2
    else if b & 8 != 0 then 3
    else if b & 16 != 0 then 4
    else if b & 32 != 0 then 5
    else if b & 64 != 0 then 6
    else if b & 128 != 0 then 7
    else 8
  }

  /** A byte with exactly one bit set is that bit, and the trailing-zero
    * count names it. */
  lemma SingleBit(b: bv8)
    requires OnesCount(b) == 1
    ensures TrailingZeros(b) < 8 && b == Bit(TrailingZeros(b))
  {
  }

  /** The bit written for direction `d` is read back as exactly `d`. */
  lemma OneHot(d: int)
    requires 0 <= d < 8
    ensures OnesCount(Bit(d)) == 1 && TrailingZeros(Bit(d)) == d
  {
  }

  /** `check_is_found`: the cell's byte, nonzero once marked. */
  function CheckIsFound(found: array<bv8>, rows: int, cols: int, row: int, col: int): bv8
    reads found
    requires found.Length == rows * cols && 0 <= row < rows && 0 <= col < cols
  {
    found[Idx(row, col, rows, cols)]
  }

  /** `mark_found`: ORs in the bit of `direction`, ignoring a negative
    * direction; no other cell changes. */
  method MarkFound(found: array<bv8>, rows: int, cols: int, row: int, col: int, direction: int)
    requires found.Length == rows * cols && 0 <= row < rows && 0 <= col < cols && direction < 8
    modifies found
    ensures found[..] == if direction >= 0
                         then old(found[..])[Idx(row, col, rows, cols) := old(found[Idx(row, col, rows, cols)]) | Bit(direction)]
                         else old(found[..])
  {
    if direction >= 0 {
      found[Idx(row, col, rows, cols)] := found[Idx(row, col, rows, cols)] | Bit(direction);
    }
  }

  // ----- The search -----

  /** The cells a walk may use: the '.' cells of the grid, and the start. */
  ghost function OpenCells(grid: array2<char>, start: Point): (cells: set<Point>)
    reads grid
    ensures forall p :: p in cells <==>
      p == start || (InGrid(p, grid.Length0, grid.Length1) && grid[p.row, p.col] == '.')
  {
    (set r, c | 0 <= r < grid.Length0 && 0 <= c < grid.Length1 && grid[r, c] == '.' :: Point(r, c)) + {start}
  }

  /** The settled cell a settled `v` was entered from (`v` itself when no
    * direction is recorded). */
  function ParentOf(v: Point, dirOf: map<Point, int>): Point {
    if v in dirOf && 0 <= dirOf[v] < 4 then Back(v, dirOf[v]) else v
  }

  /** Each settled cell's byte holds the bit of its direction; every other
    * byte is zero. */
  ghost predicate BitsMatch(bits: seq<bv8>, rows: int, cols: int, visited: set<Point>, dirOf: map<Point, int>) {
    |bits| == rows * cols &&
    forall r, c :: 0 <= r < rows && 0 <= c < cols ==>
      bits[Idx(r, c, rows, cols)] == if Point(r, c) in visited && Point(r, c) in dirOf && 0 <= dirOf[Point(r, c)] < 4
                                     then Bit(dirOf[Point(r, c)]) else 0
  }

  /** The settled cells as the found map records them: one direction bit
    * per settled cell, each leading back to a settled cell one step
    * nearer, down to the start at distance 0. */
  ghost predicate Links(bits: seq<bv8>, rows: int, cols: int, visited: set<Point>, dist: map<Point, int>,
                        dirOf: map<Point, int>, start: Point)
  {
    BitsMatch(bits, rows, cols, visited, dirOf) &&
    (forall v :: v in visited ==>
      InGrid(v, rows, cols) && v in dist && v in dirOf && 0 <= dirOf[v] < 4 &&
      dist[v] >= 0 && (v == start <==> dist[v] == 0)) &&
    (forall v {:trigger ParentOf(v, dirOf)} :: v in visited && v != start ==>
      ParentOf(v, dirOf) in visited && v in dist && ParentOf(v, dirOf) in dist &&
      dist[ParentOf(v, dirOf)] == dist[v] - 1)
  }

  /** The links of a tree of walks: each settled cell is open and reached
    * in its recorded number of steps. */
  ghost predicate Tree(bits: seq<bv8>, rows: int, cols: int, visited: set<Point>, dist: map<Point, int>,
                       dirOf: map<Point, int>, start: Point, open: set<Point>)
  {
    Links(bits, rows, cols, visited, dist, dirOf, start) &&
    forall v :: v in visited ==> v in open && v in dist && Reachable(v, dist[v], start, open)
  }

  /** The found byte of a settled cell other than the start has one bit
    * set, naming the direction back to its parent. */
  lemma ParentBits(bits: seq<bv8>, rows: int, cols: int, visited: set<Point>, dist: map<Point, int>,
                   dirOf: map<Point, int>, start: Point, cell: Point)
    requires Links(bits, rows, cols, visited, dist, dirOf, start) && cell in visited && cell != start
    ensures InGrid(cell, rows, cols) && cell in dirOf && 0 <= dirOf[cell] < 4
    ensures OnesCount(bits[Idx(cell.row, cell.col, rows, cols)]) == 1
    ensures TrailingZeros(bits[Idx(cell.row, cell.col, rows, cols)]) == dirOf[cell]
    ensures Back(cell, dirOf[cell]) in visited && cell in dist && Back(cell, dirOf[cell]) in dist &&
            dist[Back(cell, dirOf[cell])] == dist[cell] - 1
  {
    OneHot(dirOf[cell]);
    assert ParentOf(cell, dirOf) == Back(cell, dirOf[cell]);
  }

  /** A queued move: onto an open cell, heading away from a settled cell
    * one step nearer, and reached in `key` steps. */
  ghost predicate SoundEntry(e: Entry, visited: set<Point>, dist: map<Point, int>, start: Point, open: set<Point>) {
    e.key >= 1 && CellOf(e) in open && 0 <= e.dir < 4 &&
    Back(CellOf(e), e.dir) in visited && Back(CellOf(e), e.dir) in dist && dist[Back(CellOf(e), e.dir)] == e.key - 1 &&
    Reachable(CellOf(e), e.key, start, open)
  }

  ghost predicate AllSound(s: seq<Entry>, visited: set<Point>, dist: map<Point, int>, start: Point, open: set<Point>) {
    forall e :: e in s ==> SoundEntry(e, visited, dist, start, open)
  }

  /** The moves still to be settled: the heap and, unless it is the empty
    * sentinel, the move in hand. */
  function Queue(s: seq<Entry>, m: Entry): seq<Entry> {
    if m.key >= 0 then s + [m] else s
  }

  /** The initial move: the start, no steps, heading east. */
  function StartMove(start: Point): Entry {
    Entry(0, start.row, start.col, EAST, false)
  }

  /** What holds between iterations of the search loop, over the found
    * bytes `bits`, the heap's moves `q` and the move in hand `m`. */
  ghost predicate SearchState(bits: seq<bv8>, q: seq<Entry>, m: Entry, rows: int, cols: int, start: Point, end: Point,
                              visited: set<Point>, dist: map<Point, int>, dirOf: map<Point, int>, open: set<Point>) {
    InGrid(start, rows, cols) && start in open &&
    Tree(bits, rows, cols, visited, dist, dirOf, start, open) &&
    AllSound(q, visited, dist, start, open) &&
    (m.key >= 0 ==> m == StartMove(start) || SoundEntry(m, visited, dist, start, open)) &&
    (m.key >= 0 ==> forall e :: e in q ==> m.key <= e.key) &&
    (m.key < 0 ==> m == EMPTY_SENTINEL && |q| == 0) &&
    (visited == {} ==> |q| == 0 && m == StartMove(start)) &&
    (visited != {} ==> start in visited) &&
    Settled(visited, dist, start, open) &&
    Frontier(visited, dist, Queue(q, m), open) &&
    end !in visited
  }

  /** The search state held by the found map and the heap. */
  ghost predicate SearchInv(grid: array2<char>, found: array<bv8>, heap: Heap, m: Entry, start: Point, end: Point,
                            visited: set<Point>, dist: map<Point, int>, dirOf: map<Point, int>, open: set<Point>)
    reads found, heap, heap.arr
  {
    heap.Valid() && heap.arr as object != found as object && found.Length == grid.Length0 * grid.Length1 &&
    SearchState(found[..], heap.arr[..heap.len], m, grid.Length0, grid.Length1, start, end, visited, dist, dirOf, open)
  }

  /** The guarded push of `find_best_path` in direction `d`: onto an
    * in-bounds '.' neighbour not yet found. */
  function NeighbourMove(m: Entry, grid: array2<char>, found: array<bv8>, d: int): seq<Entry>
    reads grid, found
    requires found.Length == grid.Length0 * grid.Length1
    requires InGrid(CellOf(m), grid.Length0, grid.Length1)
  {
    if d == EAST then
      (if m.col + 1 < grid.Length1 && grid[m.row, m.col + 1] == '.' && CheckIsFound(found, grid.Length0, grid.Length1, m.row, m.col + 1) == 0
       then [Entry(m.key + 1, m.row, m.col + 1, EAST, false)] else [])
    else if d == NORTH then
      (if m.row > 0 && grid[m.row - 1, m.col] == '.' && CheckIsFound(found, grid.Length0, grid.Length1, m.row - 1, m.col) == 0
       then [Entry(m.key + 1, m.row - 1, m.col, NORTH, false)] else [])
    else if d == WEST then
      (if m.col > 0 && grid[m.row, m.col - 1] == '.' && CheckIsFound(found, grid.Length0, grid.Length1, m.row, m.col - 1) == 0
       then [Entry(m.key + 1, m.row, m.col - 1, WEST, false)] else [])
    else
      (if m.row + 1 < grid.Length0 && grid[m.row + 1, m.col] == '.' && CheckIsFound(found, grid.Length0, grid.Length1, m.row + 1, m.col) == 0
       then [Entry(m.key + 1, m.row + 1, m.col, SOUTH, false)] else [])
  }

  function NeighbourMoves(m: Entry, grid: array2<char>, found: array<bv8>): seq<Entry>
    reads grid, found
    requires found.Length == grid.Length0 * grid.Length1
    requires InGrid(CellOf(m), grid.Length0, grid.Length1)
  {
    NeighbourMove(m, grid, found, EAST) + NeighbourMove(m, grid, found, NORTH) +
    NeighbourMove(m, grid, found, WEST) + NeighbourMove(m, grid, found, SOUTH)
  }

  /** Every open neighbour of a settled `m` not yet settled is among the
    * moves queued from `m`. */
  lemma NeighbourCover(m: Entry, grid: array2<char>, found: array<bv8>, visited: set<Point>, dist: map<Point, int>,
                       dirOf: map<Point, int>, start: Point, open: set<Point>, u: Point)
    requires found.Length == grid.Length0 * grid.Length1
    requires open == OpenCells(grid, start) && Tree(found[..], grid.Length0, grid.Length1, visited, dist, dirOf, start, open)
    requires CellOf(m) in visited && start in visited
    requires u in open && Adjacent(CellOf(m), u) && u !in visited
    ensures exists e :: e in NeighbourMoves(m, grid, found) && CellOf(e) == u && e.key == m.key + 1
  {
    assert InGrid(u, grid.Length0, grid.Length1) && grid[u.row, u.col] == '.';
    assert CheckIsFound(found, grid.Length0, grid.Length1, u.row, u.col) == 0;
    var d := Heading(CellOf(m), u);
    var e := Entry(m.key + 1, u.row, u.col, d, false);
    assert NeighbourMove(m, grid, found, d) == [e];
    assert e in NeighbourMoves(m, grid, found);
  }

  /** Each move queued from a settled `m` is sound. */
  lemma NeighbourMovesSound(m: Entry, grid: array2<char>, found: array<bv8>, visited: set<Point>, dist: map<Point, int>,
                            start: Point, open: set<Point>)
    requires found.Length == grid.Length0 * grid.Length1
    requires open == OpenCells(grid, start) && InGrid(CellOf(m), grid.Length0, grid.Length1)
    requires CellOf(m) in visited && CellOf(m) in dist && dist[CellOf(m)] == m.key && m.key >= 0
    requires Reachable(CellOf(m), m.key, start, open)
    ensures AllSound(NeighbourMoves(m, grid, found), visited, dist, start, open)
  {
    forall e | e in NeighbourMoves(m, grid, found)
      ensures SoundEntry(e, visited, dist, start, open)
    {
      assert Back(CellOf(e), e.dir) == CellOf(m);
      ReachStep(CellOf(m), m.key, CellOf(e), start, open);
    }
  }

  /** The search of `find_best_path`: the fewest steps from `start` to
    * `end`, with the found map recording a shortest-path tree; -1 when
    * `end` cannot be reached. */
  method Search(grid: array2<char>, found: array<bv8>, start: Point, end: Point, ghost open: set<Point>)
    returns (minSteps: int, ghost visited: set<Point>, ghost dist: map<Point, int>, ghost dirOf: map<Point, int>)
    requires found.Length == grid.Length0 * grid.Length1
    requires InGrid(start, grid.Length0, grid.Length1) && open == OpenCells(grid, start)
    requires forall i :: 0 <= i < found.Length ==> found[i] == 0
    modifies found
    ensures Tree(found[..], grid.Length0, grid.Length1, visited, dist, dirOf, start, open)
    ensures minSteps >= -1
    ensures minSteps >= 0 ==> end in visited && dist[end] == minSteps && IsShortest(end, minSteps, start, open)
    ensures minSteps == -1 ==> NoWalk(end, start, open)
  {
    minSteps := -1;
    var heap := new Heap();
    visited, dist, dirOf := {}, map[], map[];
    var thisMove := StartMove(start);
    SearchStart(found[..], grid.Length0, grid.Length1, start, end, open);
    while thisMove.key >= 0
      invariant fresh(heap) && fresh(heap.arr)
      invariant SearchInv(grid, found, heap, thisMove, start, end, visited, dist, dirOf, open)
      invariant minSteps == -1
      decreases |open - visited|, heap.len, if thisMove.key >= 0 then 1 else 0
    {
      var atEnd;
      thisMove, atEnd, visited, dist, dirOf := Expand(grid, found, heap, thisMove, start, end, visited, dist, dirOf, open);
      if atEnd {
        minSteps := thisMove.key;
        break;
      }
    }
    if minSteps == -1 {
      assert Queue(heap.arr[..heap.len], thisMove) == [];
      Unreachable(end, visited, dist, [], start, open);
    }
  }

  /** Before the first pass: nothing found, nothing queued, the start in
    * hand. */
  lemma SearchStart(bits: seq<bv8>, rows: int, cols: int, start: Point, end: Point, open: set<Point>)
    requires |bits| == rows * cols && forall i :: 0 <= i < |bits| ==> bits[i] == 0
    requires InGrid(start, rows, cols) && start in open
    ensures SearchState(bits, [], StartMove(start), rows, cols, start, end, {}, map[], map[], open)
  {
  }

  /** One pass of the search loop: skips a found cell; otherwise marks it
    * with the move's direction, stops if it is the end, and queues its
    * neighbours; then pops the next move. */
  method Expand(grid: array2<char>, found: array<bv8>, heap: Heap, m: Entry, start: Point, end: Point,
                ghost visited: set<Point>, ghost dist: map<Point, int>, ghost dirOf: map<Point, int>, ghost open: set<Point>)
    returns (m': Entry, atEnd: bool, ghost visited': set<Point>, ghost dist': map<Point, int>, ghost dirOf': map<Point, int>)
    requires open == OpenCells(grid, start)
    requires SearchInv(grid, found, heap, m, start, end, visited, dist, dirOf, open) && m.key >= 0
    modifies found, heap, heap.arr
    ensures heap.arr == old(heap.arr) || fresh(heap.arr)
    ensures atEnd ==> m'.key >= 0 && CellOf(m') == end && Tree(found[..], grid.Length0, grid.Length1, visited', dist', dirOf', start, open) &&
                      end in visited' && dist'[end] == m'.key && IsShortest(end, m'.key, start, open)
    ensures !atEnd ==> SearchInv(grid, found, heap, m', start, end, visited', dist', dirOf', open)
    ensures !atEnd ==> |open - visited'| < |open - visited| ||
                       (visited' == visited && (heap.len < old(heap.len) || (heap.len == old(heap.len) && m'.key < 0)))
  {
    MoveInGrid(grid, m, start, visited, dist, open);
    if CheckIsFound(found, grid.Length0, grid.Length1, m.row, m.col) != 0 {
      m' := Skip(grid, found, heap, m, start, end, visited, dist, dirOf, open);
      atEnd, visited', dist', dirOf' := false, visited, dist, dirOf;
    } else {
      m', atEnd, visited', dist', dirOf' := Visit(grid, found, heap, m, start, end, visited, dist, dirOf, open);
    }
  }

  /** A move in hand lies on the grid. */
  lemma MoveInGrid(grid: array2<char>, m: Entry, start: Point, visited: set<Point>, dist: map<Point, int>, open: set<Point>)
    requires open == OpenCells(grid, start) && InGrid(start, grid.Length0, grid.Length1)
    requires m == StartMove(start) || SoundEntry(m, visited, dist, start, open)
    ensures InGrid(CellOf(m), grid.Length0, grid.Length1)
  {
  }

  /** The skip branch: the popped cell was found already. */
  method Skip(grid: array2<char>, found: array<bv8>, heap: Heap, m: Entry, start: Point, end: Point,
              ghost visited: set<Point>, ghost dist: map<Point, int>, ghost dirOf: map<Point, int>, ghost open: set<Point>)
    returns (m': Entry)
    requires SearchInv(grid, found, heap, m, start, end, visited, dist, dirOf, open) && m.key >= 0
    requires InGrid(CellOf(m), grid.Length0, grid.Length1) && CheckIsFound(found, grid.Length0, grid.Length1, m.row, m.col) != 0
    modifies heap, heap.arr
    ensures heap.arr == old(heap.arr)
    ensures SearchInv(grid, found, heap, m', start, end, visited, dist, dirOf, open)
    ensures heap.len < old(heap.len) || (heap.len == old(heap.len) && m'.key < 0)
  {
    assert CellOf(m) in visited;
    FrontierDrop(visited, dist, heap.arr[..heap.len], m, open);
    ghost var pushed := heap.arr[..heap.len];
    m' := PopSound(heap, visited, dist, start, open);
    FrontierPermute(visited, dist, pushed, Queue(heap.arr[..heap.len], m'), open);
  }

  /** The marking branch: settles the cell, stops at the end, or queues the
    * neighbours and pops the next move. */
  method Visit(grid: array2<char>, found: array<bv8>, heap: Heap, m: Entry, start: Point, end: Point,
               ghost visited: set<Point>, ghost dist: map<Point, int>, ghost dirOf: map<Point, int>, ghost open: set<Point>)
    returns (m': Entry, atEnd: bool, ghost visited': set<Point>, ghost dist': map<Point, int>, ghost dirOf': map<Point, int>)
    requires open == OpenCells(grid, start)
    requires SearchInv(grid, found, heap, m, start, end, visited, dist, dirOf, open) && m.key >= 0
    requires InGrid(CellOf(m), grid.Length0, grid.Length1) && CheckIsFound(found, grid.Length0, grid.Length1, m.row, m.col) == 0
    modifies found, heap, heap.arr
    ensures heap.arr == old(heap.arr) || fresh(heap.arr)
    ensures atEnd ==> m'.key >= 0 && CellOf(m') == end && Tree(found[..], grid.Length0, grid.Length1, visited', dist', dirOf', start, open) &&
                      end in visited' && dist'[end] == m'.key && IsShortest(end, m'.key, start, open)
    ensures !atEnd ==> SearchInv(grid, found, heap, m', start, end, visited', dist', dirOf', open)
    ensures !atEnd ==> |open - visited'| < |open - visited|
  {
    ghost var q0 := heap.arr[..heap.len];
    visited', dist', dirOf' := Settle(grid, found, heap, m, start, end, visited, dist, dirOf, open);
    if m.row == end.row && m.col == end.col {
      return m, true, visited', dist', dirOf';
    }
    atEnd := false;
    var moves := NeighbourMoves(m, grid, found);
    CoverMoves(m, grid, found, visited, visited', dist', dirOf', start, open);
    NeighbourMovesSound(m, grid, found, visited', dist', start, open);
    ghost var bits := found[..];
    PushAll(heap, moves, visited', dist', start, open);
    ghost var q1 := heap.arr[..heap.len];
    m' := PopSound(heap, visited', dist', start, open);
    assert found[..] == bits;
    Shrink(open, visited, CellOf(m));
    VisitStep(bits, q0, moves, q1, heap.arr[..heap.len], m, m', grid.Length0, grid.Length1, start, end,
              visited, dist, visited', dist', dirOf', open);
  }

  /** Settling one more open cell leaves fewer to settle. */
  lemma Shrink(open: set<Point>, visited: set<Point>, c: Point)
    requires c in open && c !in visited
    ensures |open - (visited + {c})| < |open - visited|
  {
    assert open - (visited + {c}) == (open - visited) - {c};
  }

  /** After settling `m`, queueing `moves` and popping `m'`, the search
    * state holds again. */
  lemma VisitStep(bits: seq<bv8>, q0: seq<Entry>, moves: seq<Entry>, q1: seq<Entry>, q2: seq<Entry>, m: Entry, m': Entry,
                  rows: int, cols: int, start: Point, end: Point, visited: set<Point>, dist: map<Point, int>,
                  visited': set<Point>, dist': map<Point, int>, dirOf': map<Point, int>, open: set<Point>)
    requires m.key >= 0 && Frontier(visited, dist, Queue(q0, m), open)
    requires visited' == visited + {CellOf(m)} && dist' == dist[CellOf(m) := m.key]
    requires Tree(bits, rows, cols, visited', dist', dirOf', start, open) && Settled(visited', dist', start, open)
    requires start in visited' && end !in visited && CellOf(m) != end && InGrid(start, rows, cols) && start in open
    requires forall u :: u in open && Adjacent(CellOf(m), u) && u !in visited && u != CellOf(m) ==>
      exists e :: e in moves && CellOf(e) == u && e.key <= m.key + 1
    requires multiset(q1) == multiset(q0) + multiset(moves)
    requires AllSound(q2, visited', dist', start, open)
    requires m'.key >= 0 ==> SoundEntry(m', visited', dist', start, open) && forall e :: e in q2 ==> m'.key <= e.key
    requires m'.key < 0 ==> m' == EMPTY_SENTINEL && |q2| == 0
    requires multiset(q1) <= multiset(Queue(q2, m'))
    ensures SearchState(bits, q2, m', rows, cols, start, end, visited', dist', dirOf', open)
  {
    assert Queue(q0, m) == q0 + [m];
    FrontierVisit(visited, dist, q0, m, moves, q1, open);
    FrontierPermute(visited', dist', q1, Queue(q2, m'), open);
  }

  /** The moves queued from the newly settled `m` reach each of its open
    * neighbours not settled before. */
  lemma CoverMoves(m: Entry, grid: array2<char>, found: array<bv8>, visited: set<Point>,
                   visited': set<Point>, dist': map<Point, int>, dirOf': map<Point, int>, start: Point, open: set<Point>)
    requires found.Length == grid.Length0 * grid.Length1
    requires open == OpenCells(grid, start) && Tree(found[..], grid.Length0, grid.Length1, visited', dist', dirOf', start, open)
    requires InGrid(CellOf(m), grid.Length0, grid.Length1)
    requires visited' == visited + {CellOf(m)} && start in visited'
    ensures forall u :: u in open && Adjacent(CellOf(m), u) && u !in visited && u != CellOf(m) ==>
      exists e :: e in NeighbourMoves(m, grid, found) && CellOf(e) == u && e.key <= m.key + 1
  {
    forall u | u in open && Adjacent(CellOf(m), u) && u !in visited && u != CellOf(m)
      ensures exists e :: e in NeighbourMoves(m, grid, found) && CellOf(e) == u && e.key <= m.key + 1
    {
      NeighbourCover(m, grid, found, visited', dist', dirOf', start, open, u);
    }
  }

  /** `mark_found` in the search: the unfound cell of `m` is settled at
    * `m`'s key with `m`'s direction bit. */
  method Settle(grid: array2<char>, found: array<bv8>, heap: Heap, m: Entry, start: Point, end: Point,
                ghost visited: set<Point>, ghost dist: map<Point, int>, ghost dirOf: map<Point, int>, ghost open: set<Point>)
    returns (ghost visited': set<Point>, ghost dist': map<Point, int>, ghost dirOf': map<Point, int>)
    requires SearchInv(grid, found, heap, m, start, end, visited, dist, dirOf, open) && m.key >= 0
    requires InGrid(CellOf(m), grid.Length0, grid.Length1) && CheckIsFound(found, grid.Length0, grid.Length1, m.row, m.col) == 0
    modifies found
    ensures CellOf(m) !in visited && CellOf(m) in open
    ensures visited' == visited + {CellOf(m)} && dist' == dist[CellOf(m) := m.key]
    ensures Tree(found[..], grid.Length0, grid.Length1, visited', dist', dirOf', start, open)
    ensures Settled(visited', dist', start, open) && start in visited'
    ensures AllSound(heap.arr[..heap.len], visited', dist', start, open)
    ensures CellOf(m) == end ==> IsShortest(end, m.key, start, open)
  {
    ghost var bits := found[..];
    SettleStep(bits, heap.arr[..heap.len], m, grid.Length0, grid.Length1, start, end, visited, dist, dirOf, open);
    MarkFound(found, grid.Length0, grid.Length1, m.row, m.col, m.dir);
    visited', dist', dirOf' := visited + {CellOf(m)}, dist[CellOf(m) := m.key], dirOf[CellOf(m) := m.dir];
    assert found[..] == bits[Idx(m.row, m.col, grid.Length0, grid.Length1) := Bit(m.dir)];
  }

  /** Settling the unfound cell of the least move `m`: its key bounds
    * every walk to it, and the tree grows by that cell. */
  lemma SettleStep(bits: seq<bv8>, q: seq<Entry>, m: Entry, rows: int, cols: int, start: Point, end: Point,
                   visited: set<Point>, dist: map<Point, int>, dirOf: map<Point, int>, open: set<Point>)
    requires SearchState(bits, q, m, rows, cols, start, end, visited, dist, dirOf, open) && m.key >= 0
    requires InGrid(CellOf(m), rows, cols) && bits[Idx(m.row, m.col, rows, cols)] == 0
    ensures CellOf(m) !in visited && CellOf(m) in open && 0 <= m.dir < 4
    ensures Tree(bits[Idx(m.row, m.col, rows, cols) := Bit(m.dir)], rows, cols, visited + {CellOf(m)},
                 dist[CellOf(m) := m.key], dirOf[CellOf(m) := m.dir], start, open)
    ensures Settled(visited + {CellOf(m)}, dist[CellOf(m) := m.key], start, open)
    ensures AllSound(q, visited + {CellOf(m)}, dist[CellOf(m) := m.key], start, open)
    ensures CellOf(m) == end ==> IsShortest(end, m.key, start, open)
  {
    var cell := CellOf(m);
    assert cell !in visited;
    if visited == {} {
      ReachStart(start, open);
      forall k | Reachable(cell, k, start, open)
        ensures m.key <= k
      {
        WalkStartsOpen(cell, k, start, open);
      }
    } else {
      NoShorterWalk(cell, m.key, visited, dist, Queue(q, m), start, open);
    }
    SettledAdd(visited, dist, cell, m.key, start, open);
    TreeSettle(bits, bits[Idx(m.row, m.col, rows, cols) := Bit(m.dir)], rows, cols, visited, dist, dirOf, start, open,
               cell, m.key, m.dir);
  }

  /** Writing the bit of `dir` into the byte of `cell` records it. */
  lemma BitsSettle(bits: seq<bv8>, bits': seq<bv8>, rows: int, cols: int, visited: set<Point>, dirOf: map<Point, int>,
                   cell: Point, dir: int)
    requires BitsMatch(bits, rows, cols, visited, dirOf) && InGrid(cell, rows, cols) && 0 <= dir < 4
    requires bits' == bits[Idx(cell.row, cell.col, rows, cols) := Bit(dir)]
    ensures BitsMatch(bits', rows, cols, visited + {cell}, dirOf[cell := dir])
  {
    forall r, c | 0 <= r < rows && 0 <= c < cols
      ensures bits'[Idx(r, c, rows, cols)] ==
        if Point(r, c) in visited + {cell} && Point(r, c) in dirOf[cell := dir] && 0 <= dirOf[cell := dir][Point(r, c)] < 4
        then Bit(dirOf[cell := dir][Point(r, c)]) else 0
    {
      IdxInjective(r, c, cell.row, cell.col, rows, cols);
    }
  }

  /** Settling the unfound `cell` at `key` steps, entered heading `dir`,
    * sets its byte to that one bit and keeps the tree. */
  lemma TreeSettle(bits: seq<bv8>, bits': seq<bv8>, rows: int, cols: int, visited: set<Point>, dist: map<Point, int>,
                   dirOf: map<Point, int>, start: Point, open: set<Point>, cell: Point, key: int, dir: int)
    requires Tree(bits, rows, cols, visited, dist, dirOf, start, open)
    requires InGrid(cell, rows, cols) && cell !in visited && cell in open && 0 <= dir < 4 && key >= 0
    requires Reachable(cell, key, start, open) && (cell == start <==> key == 0)
    requires cell != start ==> Back(cell, dir) in visited && Back(cell, dir) in dist && dist[Back(cell, dir)] == key - 1
    requires bits' == bits[Idx(cell.row, cell.col, rows, cols) := Bit(dir)]
    ensures Tree(bits', rows, cols, visited + {cell}, dist[cell := key], dirOf[cell := dir], start, open)
  {
    var visited', dist', dirOf' := visited + {cell}, dist[cell := key], dirOf[cell := dir];
    BitsSettle(bits, bits', rows, cols, visited, dirOf, cell, dir);
    forall v {:trigger ParentOf(v, dirOf')} | v in visited' && v != start
      ensures ParentOf(v, dirOf') in visited' && v in dist' && ParentOf(v, dirOf') in dist' &&
              dist'[ParentOf(v, dirOf')] == dist'[v] - 1
    {
      if v != cell {
        assert ParentOf(v, dirOf') == ParentOf(v, dirOf);
      }
    }
  }

  /** The four guarded pushes of `find_best_path`, in order: `moves`
    * holds the moves whose guards held. */
  method PushAll(heap: Heap, moves: seq<Entry>, ghost visited: set<Point>, ghost dist: map<Point, int>,
                 ghost start: Point, ghost open: set<Point>)
    requires heap.Valid() && AllSound(heap.arr[..heap.len], visited, dist, start, open)
    requires AllSound(moves, visited, dist, start, open)
    modifies heap, heap.arr
    ensures heap.Valid() && (heap.arr == old(heap.arr) || fresh(heap.arr))
    ensures multiset(heap.arr[..heap.len]) == multiset(old(heap.arr[..heap.len])) + multiset(moves)
    ensures AllSound(heap.arr[..heap.len], visited, dist, start, open)
  {
    ghost var before := heap.arr[..heap.len];
    var i := 0;
    while i < |moves|
      invariant 0 <= i <= |moves|
      invariant heap.Valid() && (heap.arr == old(heap.arr) || fresh(heap.arr))
      invariant multiset(heap.arr[..heap.len]) == multiset(before) + multiset(moves[..i])
      invariant AllSound(heap.arr[..heap.len], visited, dist, start, open)
    {
      ghost var current := heap.arr[..heap.len];
      heap.Push(moves[i]);
      assert moves[..i + 1] == moves[..i] + [moves[i]];
      forall e | e in heap.arr[..heap.len]
        ensures SoundEntry(e, visited, dist, start, open)
      {
        assert e in multiset(heap.arr[..heap.len]);
        if e != moves[i] {
          assert e in multiset(current);
        }
      }
      i := i + 1;
    }
    assert moves[..i] == moves;
  }

  /** `pop_pq` in the search: the empty sentinel, or a sound move no
    * heavier than any move left. */
  method PopSound(heap: Heap, ghost visited: set<Point>, ghost dist: map<Point, int>, ghost start: Point, ghost open: set<Point>)
    returns (top: Entry)
    requires heap.Valid() && AllSound(heap.arr[..heap.len], visited, dist, start, open)
    modifies heap, heap.arr
    ensures heap.Valid() && heap.arr == old(heap.arr)
    ensures AllSound(heap.arr[..heap.len], visited, dist, start, open)
    ensures top.key >= 0 ==> SoundEntry(top, visited, dist, start, open)
    ensures top.key >= 0 ==> forall e :: e in heap.arr[..heap.len] ==> top.key <= e.key
    ensures top.key < 0 ==> top == EMPTY_SENTINEL && heap.len == 0
    ensures old(heap.len) > 0 ==> heap.len == old(heap.len) - 1
    ensures old(heap.len) <= 0 ==> heap.len == old(heap.len) && top == EMPTY_SENTINEL
    ensures multiset(old(heap.arr[..heap.len])) <= multiset(Queue(heap.arr[..heap.len], top))
  {
    ghost var queued := heap.arr[..heap.len];
    top := heap.PopOrEmpty();
    forall e | e in heap.arr[..heap.len]
      ensures SoundEntry(e, visited, dist, start, open) && (top.key >= 0 ==> top.key <= e.key)
    {
      assert e in multiset(heap.arr[..heap.len]);
      assert e in multiset(queued);
    }
    if old(heap.len) > 0 {
      assert top in multiset(queued);
      assert SoundEntry(top, visited, dist, start, open);
    }
  }

  // ----- The path -----

  /** `mark_min_path`: writes the settled cell `cell` at `pathIndex` and
    * its predecessors, read from the found bits, below it down to the
    * start, marking each on the grid with 'O'. */
  method MarkMinPath(grid: array2<char>, found: array<bv8>, mazeStart: Point, cell: Point, path: array<Point>,
                     pathIndex: int, ghost visited: set<Point>, ghost dist: map<Point, int>, ghost dirOf: map<Point, int>)
    requires Links(found[..], grid.Length0, grid.Length1, visited, dist, dirOf, mazeStart)
    requires path as object != found as object
    requires cell in visited && dist[cell] == pathIndex && pathIndex < path.Length
    modifies grid, path
    ensures path[0] == mazeStart && path[pathIndex] == cell
    ensures forall k :: 0 <= k <= pathIndex ==> path[k] in visited
    ensures forall k :: 0 <= k < pathIndex ==> Adjacent(path[k], path[k + 1])
    ensures forall k :: pathIndex < k < path.Length ==> path[k] == old(path[k])
    ensures forall r, c :: 0 <= r < grid.Length0 && 0 <= c < grid.Length1 ==>
      grid[r, c] == if Point(r, c) in path[..pathIndex + 1] then 'O' else old(grid[r, c])
    decreases pathIndex
  {
    grid[cell.row, cell.col] := 'O';
    path[pathIndex] := cell;
    if cell.row == mazeStart.row && cell.col == mazeStart.col {
      return;
    }
    ParentBits(found[..], grid.Length0, grid.Length1, visited, dist, dirOf, mazeStart, cell);
    var parentsBits := CheckIsFound(found, grid.Length0, grid.Length1, cell.row, cell.col);
    if OnesCount(parentsBits) != 1 {
      assert false;
      return;
    }
    var dir := TrailingZeros(parentsBits);
    if !(0 <= dir < 4) {
      assert false;
      return;
    }
    var next := Back(cell, dir);
    MarkMinPath(grid, found, mazeStart, next, path, pathIndex - 1, visited, dist, dirOf);
    forall p: Point
      ensures p in path[..pathIndex + 1] <==> p in path[..pathIndex] || p == cell
    {
      InLongerPrefix(path[..], pathIndex, p);
    }
    assert Adjacent(path[pathIndex - 1], path[pathIndex]);
  }

  /** A prefix one element longer holds exactly one more element. */
  lemma InLongerPrefix<T>(s: seq<T>, n: int, x: T)
    requires 0 <= n < |s|
    ensures x in s[..n + 1] <==> x in s[..n] || x == s[n]
  {
    assert s[..n + 1] == s[..n] + [s[n]];
  }

  /** The path `find_best_path` reports: a walk from the start to the end
    * through open cells, of the fewest steps. */
  ghost predicate BestPath(path: seq<Point>, start: Point, end: Point, open: set<Point>) {
    IsWalk(path, start, open) && path[|path| - 1] == end && IsShortest(end, |path| - 1, start, open)
  }

  /** The reporting step of `find_best_path`: a path of `minSteps + 1`
    * points, filled back from the end by `mark_min_path`. */
  method ReportPath(grid: array2<char>, found: array<bv8>, start: Point, end: Point, minSteps: int,
                    ghost visited: set<Point>, ghost dist: map<Point, int>, ghost dirOf: map<Point, int>, ghost open: set<Point>)
    returns (path: array<Point>)
    requires Tree(found[..], grid.Length0, grid.Length1, visited, dist, dirOf, start, open)
    requires minSteps >= 0 && end in visited && dist[end] == minSteps && IsShortest(end, minSteps, start, open)
    modifies grid
    ensures fresh(path) && path.Length == minSteps + 1
    ensures BestPath(path[..], start, end, open)
    ensures forall r, c :: 0 <= r < grid.Length0 && 0 <= c < grid.Length1 ==>
      grid[r, c] == if Point(r, c) in path[..] then 'O' else old(grid[r, c])
  {
    assert visited <= open;
    path := new Point[minSteps + 1](_ => start);
    MarkMinPath(grid, found, start, end, path, minSteps, visited, dist, dirOf);
    assert path[..minSteps + 1] == path[..];
    ReportedIsBest(path[..], start, end, minSteps, open, visited);
  }

  /** The filled path: from the start to the end through settled cells, one
    * step at a time, as long as the fewest steps. */
  lemma ReportedIsBest(p: seq<Point>, start: Point, end: Point, minSteps: int, open: set<Point>, visited: set<Point>)
    requires visited <= open && minSteps >= 0 && |p| == minSteps + 1 && p[0] == start && p[minSteps] == end
    requires forall k :: 0 <= k < |p| ==> p[k] in visited
    requires forall k :: 0 <= k < |p| - 1 ==> Adjacent(p[k], p[k + 1])
    requires IsShortest(end, minSteps, start, open)
    ensures BestPath(p, start, end, open)
  {
    PathIsWalk(p, start, open, visited);
  }

  /** `find_best_path`: the best path from `start` to `end`, marked 'O' on
    * the grid, with its length (fewest steps + 1); no path, length 0, when
    * `end` cannot be reached or is the start itself. */
  method FindBestPath(grid: array2<char>, start: Point, end: Point) returns (path: array<Point>, returnSize: int)
    requires InGrid(start, grid.Length0, grid.Length1)
    modifies grid
    ensures fresh(path) && returnSize == path.Length
    ensures returnSize > 0 ==> returnSize >= 2 && BestPath(path[..], start, end, old(OpenCells(grid, start)))
    ensures returnSize == 0 <==> start == end || NoWalk(end, start, old(OpenCells(grid, start)))
    ensures forall r, c :: 0 <= r < grid.Length0 && 0 <= c < grid.Length1 ==>
      grid[r, c] == if Point(r, c) in path[..] then 'O' else old(grid[r, c])
  {
    var found := new bv8[grid.Length0 * grid.Length1](_ => 0);
    ghost var open := OpenCells(grid, start);
    var minSteps, visited, dist, dirOf := Search(grid, found, start, end, open);
    if minSteps > 0 {
      returnSize := minSteps + 1;
      path := ReportPath(grid, found, start, end, minSteps, visited, dist, dirOf, open);
    } else {
      returnSize := 0;
      path := new Point[0];
      if minSteps == 0 {
        IsStart(end, start, found[..], grid.Length0, grid.Length1, visited, dist, dirOf, open);
      }
      if start == end {
        ReachStart(start, open);
      }
    }
  }

  /** `find_best_path` with a start that is also the end answered by the
    * one-point path: the length is 0 exactly when `end` cannot be
    * reached. */
  method FindBestPathCorrected(grid: array2<char>, start: Point, end: Point) returns (path: array<Point>, returnSize: int)
    requires InGrid(start, grid.Length0, grid.Length1)
    modifies grid
    ensures fresh(path) && returnSize == path.Length
    ensures returnSize > 0 ==> BestPath(path[..], start, end, old(OpenCells(grid, start)))
    ensures returnSize == 0 <==> NoWalk(end, start, old(OpenCells(grid, start)))
    ensures forall r, c :: 0 <= r < grid.Length0 && 0 <= c < grid.Length1 ==>
      grid[r, c] == if Point(r, c) in path[..] then 'O' else old(grid[r, c])
  {
    var found := new bv8[grid.Length0 * grid.Length1](_ => 0);
    ghost var open := OpenCells(grid, start);
    var minSteps, visited, dist, dirOf := Search(grid, found, start, end, open);
    if minSteps >= 0 {
      returnSize := minSteps + 1;
      path := ReportPath(grid, found, start, end, minSteps, visited, dist, dirOf, open);
    } else {
      returnSize := 0;
      path := new Point[0];
    }
  }

  /** The end at distance 0 is the start. */
  lemma IsStart(end: Point, start: Point, bits: seq<bv8>, rows: int, cols: int, visited: set<Point>, dist: map<Point, int>,
                dirOf: map<Point, int>, open: set<Point>)
    requires Tree(bits, rows, cols, visited, dist, dirOf, start, open) && end in visited && dist[end] == 0
    ensures end == start
  {
  }

  /** The filled path is a walk through settled, hence open, cells. */
  lemma PathIsWalk(path: seq<Point>, start: Point, open: set<Point>, visited: set<Point>)
    requires visited <= open
    requires |path| >= 1 && path[0] == start
    requires forall k :: 0 <= k < |path| ==> path[k] in visited
    requires forall k :: 0 <= k < |path| - 1 ==> Adjacent(path[k], path[k + 1])
    ensures IsWalk(path, start, open)
  {
    forall k | 0 <= k < |path| - 1
      ensures StepAt(path, k)
    {
    }
  }
}
