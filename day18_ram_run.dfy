// Day 18, part 1: the fewest steps from the top-left to the bottom-right
// corner of a square grid once the obstacles have fallen, found with the
// step-keyed min-heap.

module RamRun {
  import opened MinHeap
  import opened GridWalk

  const START: Point := Point(0, 0)

  /** In the `size` x `size` grid and not an obstacle. */
  predicate Open(p: Point, size: int, obstacles: seq<Point>) {
    0 <= p.row < size && 0 <= p.col < size && p !in obstacles
  }

  /** The open cells, as the set walks are taken through. */
  ghost function OpenCells(size: int, obstacles: seq<Point>): (cells: set<Point>)
    ensures forall p :: p in cells <==> Open(p, size, obstacles)
  {
    set r, c | 0 <= r < size && 0 <= c < size && Point(r, c) !in obstacles :: Point(r, c)
  }

  /** A queued move: an open cell reached in `key` steps. */
  ghost predicate Sound(e: Entry, size: int, obstacles: seq<Point>) {
    e.key >= 0 && Open(CellOf(e), size, obstacles) &&
    Reachable(CellOf(e), e.key, START, OpenCells(size, obstacles))
  }

  /** The grid during the search: '#' on an obstacle, 'O' on a visited
    * cell and '.' elsewhere; every visited cell is open. */
  ghost predicate GridMarks(grid: array2<char>, size: int, obstacles: seq<Point>, visited: set<Point>)
    reads grid
  {
    grid.Length0 == size && grid.Length1 == size &&
    (forall r, c :: 0 <= r < size && 0 <= c < size ==>
      grid[r, c] == if Point(r, c) in obstacles then '#' else if Point(r, c) in visited then 'O' else '.') &&
    (forall p :: p in visited ==> Open(p, size, obstacles))
  }

  /** The move `get_min_steps` queues from `m` in direction `d` (right,
    * up, left, down): one step further, onto a cell still marked '.'. */
  function NeighbourMove(m: Entry, grid: array2<char>, d: int): seq<Entry>
    reads grid
    requires 0 <= m.row < grid.Length0 && 0 <= m.col < grid.Length1
  {
    if d == 0 then
      (if m.col + 1 < grid.Length1 && grid[m.row, m.col + 1] == '.' then [Entry(m.key + 1, m.row, m.col + 1, 0, false)] else [])
    else if d == 1 then
      (if m.row > 0 && grid[m.row - 1, m.col] == '.' then [Entry(m.key + 1, m.row - 1, m.col, 0, false)] else [])
    else if d == 2 then
      (if m.col > 0 && grid[m.row, m.col - 1] == '.' then [Entry(m.key + 1, m.row, m.col - 1, 0, false)] else [])
    else
      (if m.row + 1 < grid.Length0 && grid[m.row + 1, m.col] == '.' then [Entry(m.key + 1, m.row + 1, m.col, 0, false)] else [])
  }

  function NeighbourMoves(m: Entry, grid: array2<char>): seq<Entry>
    reads grid
    requires 0 <= m.row < grid.Length0 && 0 <= m.col < grid.Length1
  {
    NeighbourMove(m, grid, 0) + NeighbourMove(m, grid, 1) + NeighbourMove(m, grid, 2) + NeighbourMove(m, grid, 3)
  }

  /** The four guarded pushes of `get_min_steps` for the move `m`. */
  method PushOpenNeighbours(heap: Heap, grid: array2<char>, m: Entry, ghost size: int, ghost obstacles: seq<Point>, ghost visited: set<Point>)
    requires heap.Valid() && GridMarks(grid, size, obstacles, visited)
    requires 0 <= m.row < size && 0 <= m.col < size && m.key >= 0
    requires Reachable(CellOf(m), m.key, START, OpenCells(size, obstacles))
    requires forall e :: e in heap.arr[..heap.len] ==> Sound(e, size, obstacles)
    modifies heap, heap.arr
    ensures heap.Valid() && (heap.arr == old(heap.arr) || fresh(heap.arr))
    ensures multiset(heap.arr[..heap.len]) == multiset(old(heap.arr[..heap.len])) + multiset(NeighbourMoves(m, grid))
    ensures forall e :: e in heap.arr[..heap.len] ==> Sound(e, size, obstacles)
  {
    PushNeighbour(heap, grid, m, 0, size, obstacles, visited);
    PushNeighbour(heap, grid, m, 1, size, obstacles, visited);
    PushNeighbour(heap, grid, m, 2, size, obstacles, visited);
    PushNeighbour(heap, grid, m, 3, size, obstacles, visited);
  }

  /** One guarded push of `get_min_steps`. */
  method PushNeighbour(heap: Heap, grid: array2<char>, m: Entry, d: int, ghost size: int, ghost obstacles: seq<Point>, ghost visited: set<Point>)
    requires heap.Valid() && GridMarks(grid, size, obstacles, visited)
    requires 0 <= m.row < size && 0 <= m.col < size && m.key >= 0
    requires Reachable(CellOf(m), m.key, START, OpenCells(size, obstacles))
    requires forall e :: e in heap.arr[..heap.len] ==> Sound(e, size, obstacles)
    modifies heap, heap.arr
    ensures heap.Valid() && (heap.arr == old(heap.arr) || fresh(heap.arr))
    ensures multiset(heap.arr[..heap.len]) == multiset(old(heap.arr[..heap.len])) + multiset(NeighbourMove(m, grid, d))
    ensures forall e :: e in heap.arr[..heap.len] ==> Sound(e, size, obstacles)
  {
    var move := NeighbourMove(m, grid, d);
    if move != [] {
      var e := move[0];
      assert grid[e.row, e.col] == '.';
      PushSound(heap, e, CellOf(m), size, obstacles);
    }
  }

  /** Pushes a move onto an open neighbour of a reached cell. */
  method PushSound(heap: Heap, e: Entry, ghost from: Point, ghost size: int, ghost obstacles: seq<Point>)
    requires heap.Valid() && Open(CellOf(e), size, obstacles) && Adjacent(from, CellOf(e))
    requires e.key >= 1 && Reachable(from, e.key - 1, START, OpenCells(size, obstacles))
    requires forall x :: x in heap.arr[..heap.len] ==> Sound(x, size, obstacles)
    modifies heap, heap.arr
    ensures heap.Valid() && (heap.arr == old(heap.arr) || fresh(heap.arr))
    ensures multiset(heap.arr[..heap.len]) == multiset(old(heap.arr[..heap.len])) + multiset{e}
    ensures forall x :: x in heap.arr[..heap.len] ==> Sound(x, size, obstacles)
  {
    ReachStep(from, e.key - 1, CellOf(e), START, OpenCells(size, obstacles));
    ghost var before := heap.arr[..heap.len];
    heap.Push(e);
    forall x | x in heap.arr[..heap.len]
      ensures Sound(x, size, obstacles)
    {
      assert x in multiset(heap.arr[..heap.len]);
      if x != e {
        assert x in multiset(before);
      }
    }
  }

  /** Every open neighbour of `m`'s cell not yet visited is among the
    * moves `get_min_steps` queues from `m`. */
  lemma NeighbourCover(m: Entry, grid: array2<char>, size: int, obstacles: seq<Point>, visited: set<Point>, u: Point)
    requires GridMarks(grid, size, obstacles, visited)
    requires 0 <= m.row < size && 0 <= m.col < size
    requires Open(u, size, obstacles) && Adjacent(CellOf(m), u) && u !in visited
    ensures exists e :: e in NeighbourMoves(m, grid) && CellOf(e) == u && e.key == m.key + 1
  {
    assert grid[u.row, u.col] == '.';
    var e := Entry(m.key + 1, u.row, u.col, 0, false);
    var d := if u.col == m.col + 1 then 0 else if u.row == m.row - 1 then 1 else if u.col == m.col - 1 then 2 else 3;
    assert NeighbourMove(m, grid, d) == [e];
    assert e in NeighbourMoves(m, grid);
  }

  /** Every obstacle lies inside the `size` x `size` grid. */
  predicate AllInside(obstacles: seq<Point>, size: int) {
    forall i :: 0 <= i < |obstacles| ==> 0 <= obstacles[i].row < size && 0 <= obstacles[i].col < size
  }

  /** `get_min_steps`: -1 when an obstacle lies outside the grid; otherwise
    * the fewest steps from the start to the far corner, or -1 when no walk
    * reaches it.  On a 1 x 1 grid it answers -1 even though the start is
    * the far corner. */
  method GetMinSteps(obstacles: seq<Point>, gridSize: int) returns (minSteps: int)
    requires gridSize >= 1 || |obstacles| > 0
    ensures minSteps >= -1
    ensures !AllInside(obstacles, gridSize) ==> minSteps == -1
    ensures AllInside(obstacles, gridSize) && gridSize >= 2 ==>
      var target, open := Point(gridSize - 1, gridSize - 1), OpenCells(gridSize, obstacles);
      (minSteps >= 0 ==> IsShortest(target, minSteps, START, open)) &&
      (minSteps == -1 <==> NoWalk(target, START, open))
    ensures gridSize == 1 ==> minSteps == -1
  {
    var grid, valid := PlaceObstacles(obstacles, gridSize);
    if !valid {
      return -1;
    }
    minSteps := Search(grid, gridSize, obstacles);
  }

  /** A 1 x 1 grid without obstacles: its only cell, the far corner, is
    * reached in no steps, yet `GetMinSteps` answers -1 for it. */
  lemma OneCellGridReachable()
    ensures AllInside([], 1) && IsShortest(Point(0, 0), 0, START, OpenCells(1, []))
  {
    ReachStart(START, OpenCells(1, []));
    forall k | Reachable(Point(0, 0), k, START, OpenCells(1, []))
      ensures 0 <= k
    {
      WalkStartsOpen(Point(0, 0), k, START, OpenCells(1, []));
    }
  }

  /** `get_min_steps` with the far corner also recognised when it is the
    * start: the fewest steps, or -1 exactly when no walk reaches it. */
  method GetMinStepsCorrected(obstacles: seq<Point>, gridSize: int) returns (minSteps: int)
    requires gridSize >= 1 || |obstacles| > 0
    ensures minSteps >= -1
    ensures !AllInside(obstacles, gridSize) ==> minSteps == -1
    ensures AllInside(obstacles, gridSize) ==>
      var target, open := Point(gridSize - 1, gridSize - 1), OpenCells(gridSize, obstacles);
      (minSteps >= 0 ==> IsShortest(target, minSteps, START, open)) &&
      (minSteps == -1 <==> NoWalk(target, START, open))
  {
    var grid, valid := PlaceObstacles(obstacles, gridSize);
    if !valid {
      return -1;
    }
    if gridSize == 1 {
      ghost var open := OpenCells(gridSize, obstacles);
      if grid[0, 0] == '.' {
        ReachStart(START, open);
        forall k | Reachable(START, k, START, open)
          ensures 0 <= k
        {
          WalkStartsOpen(START, k, START, open);
        }
        return 0;
      }
      forall k | Reachable(START, k, START, open)
        ensures false
      {
        WalkStartsOpen(START, k, START, open);
      }
      return -1;
    }
    minSteps := Search(grid, gridSize, obstacles);
  }

  /** The grid set-up of `get_min_steps`: every cell '.', then each
    * obstacle '#', stopping at the first obstacle outside the grid. */
  method PlaceObstacles(obstacles: seq<Point>, gridSize: int) returns (grid: array2<char>, valid: bool)
    requires gridSize >= 1 || |obstacles| > 0
    ensures fresh(grid)
    ensures valid <==> AllInside(obstacles, gridSize)
    ensures valid ==> gridSize >= 1 && grid.Length0 == gridSize && grid.Length1 == gridSize
    ensures valid ==> forall r, c :: 0 <= r < gridSize && 0 <= c < gridSize ==>
      grid[r, c] == (if Point(r, c) in obstacles then '#' else '.')
  {
    grid := new char[if gridSize > 0 then gridSize else 0, if gridSize > 0 then gridSize else 0]((_, _) => '.');
    var i := 0;
    while i < |obstacles|
      invariant 0 <= i <= |obstacles|
      invariant AllInside(obstacles[..i], gridSize)
      invariant forall r, c :: 0 <= r < grid.Length0 && 0 <= c < grid.Length1 ==>
        grid[r, c] == (if Point(r, c) in obstacles[..i] then '#' else '.')
    {
      var p := obstacles[i];
      if p.row < 0 || p.col < 0 || p.row >= gridSize || p.col >= gridSize {
        assert !(0 <= obstacles[i].row < gridSize && 0 <= obstacles[i].col < gridSize);
        return grid, false;
      }
      grid[p.row, p.col] := '#';
      assert obstacles[..i + 1] == obstacles[..i] + [p];
      i := i + 1;
    }
    assert obstacles[..i] == obstacles;
    if |obstacles| > 0 {
      assert 0 <= obstacles[0].row < gridSize;
    }
    valid := true;
  }

  /** What holds between iterations of the search loop, for the heap, the
    * current move `m`, the visited cells and their settled distances. */
  ghost predicate SearchInv(grid: array2<char>, heap: Heap, m: Entry, size: int, obstacles: seq<Point>,
                            visited: set<Point>, dist: map<Point, int>)
    reads grid, heap, heap.arr
  {
    var open := OpenCells(size, obstacles);
    heap.Valid() && GridMarks(grid, size, obstacles, visited) &&
    (forall e :: e in heap.arr[..heap.len] ==> Sound(e, size, obstacles)) &&
    (m.key >= 0 ==> 0 <= m.row < size && 0 <= m.col < size) &&
    (m.key >= 0 && Open(CellOf(m), size, obstacles) ==> Reachable(CellOf(m), m.key, START, open)) &&
    (m.key >= 0 ==> forall e :: e in heap.arr[..heap.len] ==> m.key <= e.key) &&
    (m.key < 0 ==> m == EMPTY_SENTINEL && heap.len == 0) &&
    Settled(visited, dist, START, open) &&
    Frontier(visited, dist, heap.arr[..heap.len] + [m], open) &&
    (visited == {} ==> heap.len == 0 && (m.key >= 0 ==> m == Entry(0, 0, 0, 0, false)) &&
                       (m.key < 0 ==> !Open(START, size, obstacles))) &&
    (visited != {} ==> START in visited) &&
    (size >= 2 ==> Point(size - 1, size - 1) !in visited) &&
    (size == 1 ==> heap.len == 0)
  }

  /** The search loop of `get_min_steps`: pops moves in order of steps,
    * marks each '.' cell 'O' when first popped, queues its '.' neighbours
    * and stops when the far corner is popped or the heap runs dry. */
  method Search(grid: array2<char>, gridSize: int, obstacles: seq<Point>) returns (minSteps: int)
    requires gridSize >= 1 && grid.Length0 == gridSize && grid.Length1 == gridSize
    requires forall r, c :: 0 <= r < gridSize && 0 <= c < gridSize ==>
      grid[r, c] == (if Point(r, c) in obstacles then '#' else '.')
    modifies grid
    ensures minSteps >= -1
    ensures gridSize >= 2 ==>
      var target, open := Point(gridSize - 1, gridSize - 1), OpenCells(gridSize, obstacles);
      (minSteps >= 0 ==> IsShortest(target, minSteps, START, open)) &&
      (minSteps == -1 ==> NoWalk(target, START, open))
    ensures gridSize == 1 ==> minSteps == -1
  {
    minSteps := -1;
    var target := Point(gridSize - 1, gridSize - 1);
    ghost var open := OpenCells(gridSize, obstacles);
    var heap := new Heap();
    ghost var visited: set<Point> := {};
    ghost var dist: map<Point, int> := map[];
    var thisMove := Entry(0, 0, 0, 0, false);
    SearchStart(grid, heap, gridSize, obstacles);
    while thisMove.key >= 0
      invariant fresh(heap) && fresh(heap.arr)
      invariant SearchInv(grid, heap, thisMove, gridSize, obstacles, visited, dist)
      invariant gridSize >= 2 && thisMove.key >= 0 ==> CellOf(thisMove) != target
      invariant minSteps == -1
      decreases |open - visited|, heap.len, if thisMove.key >= 0 then 1 else 0
    {
      ghost var visited0 := visited;
      thisMove, visited, dist := Expand(grid, heap, thisMove, gridSize, obstacles, visited, dist);
      if thisMove.row == target.row && thisMove.col == target.col {
        minSteps := thisMove.key;
        if gridSize >= 2 {
          FoundShortest(grid, heap, thisMove, gridSize, obstacles, visited, dist);
        }
        break;
      }
    }
    if minSteps == -1 && gridSize >= 2 {
      NothingLeft(grid, heap, thisMove, gridSize, obstacles, visited, dist);
    }
  }

  /** The search begins at the start cell, with nothing visited and the
    * heap empty. */
  lemma SearchStart(grid: array2<char>, heap: Heap, size: int, obstacles: seq<Point>)
    requires size >= 1 && grid.Length0 == size && grid.Length1 == size
    requires forall r, c :: 0 <= r < size && 0 <= c < size ==>
      grid[r, c] == (if Point(r, c) in obstacles then '#' else '.')
    requires heap.Valid() && heap.len == 0
    ensures SearchInv(grid, heap, Entry(0, 0, 0, 0, false), size, obstacles, {}, map[])
  {
    if Open(START, size, obstacles) {
      ReachStart(START, OpenCells(size, obstacles));
    }
  }

  /** The far corner popped with the least queued key is reached in that
    * many steps and in no fewer. */
  lemma FoundShortest(grid: array2<char>, heap: Heap, m: Entry, size: int, obstacles: seq<Point>,
                      visited: set<Point>, dist: map<Point, int>)
    requires size >= 2 && SearchInv(grid, heap, m, size, obstacles, visited, dist)
    requires CellOf(m) == Point(size - 1, size - 1) && (m.key >= 0 ==> Sound(m, size, obstacles))
    ensures m.key >= 0 && IsShortest(CellOf(m), m.key, START, OpenCells(size, obstacles))
  {
    assert m.key >= 0;
    NoShorterWalk(CellOf(m), m.key, visited, dist, heap.arr[..heap.len] + [m], START, OpenCells(size, obstacles));
  }

  /** With the heap run dry, the far corner is not reachable at all. */
  lemma NothingLeft(grid: array2<char>, heap: Heap, m: Entry, size: int, obstacles: seq<Point>,
                    visited: set<Point>, dist: map<Point, int>)
    requires size >= 2 && SearchInv(grid, heap, m, size, obstacles, visited, dist) && m.key < 0
    ensures NoWalk(Point(size - 1, size - 1), START, OpenCells(size, obstacles))
  {
    var open := OpenCells(size, obstacles);
    var target := Point(size - 1, size - 1);
    if Open(START, size, obstacles) {
      assert heap.arr[..heap.len] + [m] == [EMPTY_SENTINEL];
      Unreachable(target, visited, dist, heap.arr[..heap.len] + [m], START, open);
    } else {
      forall k | Reachable(target, k, START, open)
        ensures false
      {
        WalkStartsOpen(target, k, START, open);
      }
    }
  }

  /** One pass of the search loop up to the far-corner test: visits the
    * cell of `m` if it is still '.', queues its neighbours, and pops the
    * next move. */
  method Expand(grid: array2<char>, heap: Heap, m: Entry, ghost size: int, ghost obstacles: seq<Point>,
                ghost visited: set<Point>, ghost dist: map<Point, int>)
    returns (m': Entry, ghost visited': set<Point>, ghost dist': map<Point, int>)
    requires SearchInv(grid, heap, m, size, obstacles, visited, dist) && m.key >= 0
    requires size >= 2 ==> CellOf(m) != Point(size - 1, size - 1)
    modifies grid, heap, heap.arr
    ensures SearchInv(grid, heap, m', size, obstacles, visited', dist')
    ensures heap.arr == old(heap.arr) || fresh(heap.arr)
    ensures m'.key >= 0 ==> Sound(m', size, obstacles)
    ensures size == 1 ==> m' == EMPTY_SENTINEL
    ensures visited' == visited || (CellOf(m) !in visited && visited' == visited + {CellOf(m)} && Open(CellOf(m), size, obstacles))
    ensures visited' == visited ==> heap.len < old(heap.len) || (heap.len == old(heap.len) && m'.key < 0)
  {
    ghost var open := OpenCells(size, obstacles);
    if grid[m.row, m.col] == '.' {
      visited', dist' := VisitCell(grid, heap, m, size, obstacles, visited, dist);
    } else {
      visited', dist' := visited, dist;
      FrontierDrop(visited, dist, heap.arr[..heap.len], m, open);
    }
    ghost var pushed := heap.arr[..heap.len];
    m' := PopSound(heap, size, obstacles);
    FrontierPermute(visited', dist', pushed, heap.arr[..heap.len] + [m'], open);
  }

  /** The visiting branch of the search loop: the cell of `m`, still '.',
    * is settled at `m`'s key, marked 'O', and its '.' neighbours queued. */
  method VisitCell(grid: array2<char>, heap: Heap, m: Entry, ghost size: int, ghost obstacles: seq<Point>,
                   ghost visited: set<Point>, ghost dist: map<Point, int>)
    returns (ghost visited': set<Point>, ghost dist': map<Point, int>)
    requires SearchInv(grid, heap, m, size, obstacles, visited, dist) && m.key >= 0
    requires 0 <= m.row < size && 0 <= m.col < size && grid[m.row, m.col] == '.'
    requires size >= 2 ==> CellOf(m) != Point(size - 1, size - 1)
    modifies grid, heap, heap.arr
    ensures heap.Valid() && (heap.arr == old(heap.arr) || fresh(heap.arr))
    ensures CellOf(m) !in visited && visited' == visited + {CellOf(m)} && Open(CellOf(m), size, obstacles)
    ensures GridMarks(grid, size, obstacles, visited')
    ensures forall e :: e in heap.arr[..heap.len] ==> Sound(e, size, obstacles)
    ensures Settled(visited', dist', START, OpenCells(size, obstacles))
    ensures Frontier(visited', dist', heap.arr[..heap.len], OpenCells(size, obstacles))
    ensures START in visited'
    ensures size >= 2 ==> Point(size - 1, size - 1) !in visited'
    ensures size == 1 ==> heap.len == 0
  {
    ghost var open := OpenCells(size, obstacles);
    ghost var q := heap.arr[..heap.len];
    var cell := CellOf(m);
    if visited == {} {
      forall k | Reachable(cell, k, START, open)
        ensures m.key <= k
      {
        WalkStartsOpen(cell, k, START, open);
      }
    } else {
      NoShorterWalk(cell, m.key, visited, dist, q + [m], START, open);
    }
    SettledAdd(visited, dist, cell, m.key, START, open);
    Visit(grid, m, size, obstacles, visited);
    visited', dist' := visited + {cell}, dist[cell := m.key];
    PushOpenNeighbours(heap, grid, m, size, obstacles, visited');
    forall u | u in open && Adjacent(cell, u) && u !in visited && u != cell
      ensures exists e :: e in NeighbourMoves(m, grid) && CellOf(e) == u && e.key <= m.key + 1
    {
      NeighbourCover(m, grid, size, obstacles, visited', u);
    }
    FrontierVisit(visited, dist, q, m, NeighbourMoves(m, grid), heap.arr[..heap.len], open);
    if size == 1 {
      assert NeighbourMoves(m, grid) == [];
      assert |multiset(heap.arr[..heap.len])| == 0;
    }
  }

  /** Marks the '.' cell of `m` with 'O'. */
  method Visit(grid: array2<char>, m: Entry, ghost size: int, ghost obstacles: seq<Point>, ghost visited: set<Point>)
    requires GridMarks(grid, size, obstacles, visited)
    requires 0 <= m.row < size && 0 <= m.col < size && grid[m.row, m.col] == '.'
    modifies grid
    ensures GridMarks(grid, size, obstacles, visited + {CellOf(m)})
    ensures CellOf(m) !in visited && Open(CellOf(m), size, obstacles)
    ensures forall r, c :: 0 <= r < size && 0 <= c < size ==>
      grid[r, c] == if (r, c) == (m.row, m.col) then 'O' else old(grid[r, c])
  {
    grid[m.row, m.col] := 'O';
  }

  /** `pop_pq` in the search: what it returns is the empty sentinel or a
    * queued move no heavier than any move left. */
  method PopSound(heap: Heap, ghost size: int, ghost obstacles: seq<Point>) returns (top: Entry)
    requires heap.Valid()
    requires forall e :: e in heap.arr[..heap.len] ==> Sound(e, size, obstacles)
    modifies heap, heap.arr
    ensures heap.Valid() && heap.arr == old(heap.arr)
    ensures forall e :: e in heap.arr[..heap.len] ==> Sound(e, size, obstacles)
    ensures top.key >= 0 ==> Sound(top, size, obstacles)
    ensures top.key >= 0 ==> forall e :: e in heap.arr[..heap.len] ==> top.key <= e.key
    ensures top.key < 0 ==> top == EMPTY_SENTINEL && heap.len == 0
    ensures old(heap.len) <= 0 ==> top == EMPTY_SENTINEL && heap.len == old(heap.len)
    ensures old(heap.len) > 0 ==> heap.len == old(heap.len) - 1
    ensures multiset(old(heap.arr[..heap.len])) <= multiset(heap.arr[..heap.len] + [top])
  {
    ghost var queued := heap.arr[..heap.len];
    top := heap.PopOrEmpty();
    forall e | e in heap.arr[..heap.len]
      ensures Sound(e, size, obstacles) && (top.key >= 0 ==> top.key <= e.key)
    {
      assert e in multiset(heap.arr[..heap.len]);
      assert e in multiset(queued);
    }
    if old(heap.len) > 0 {
      assert top in multiset(queued);
      assert Sound(top, size, obstacles);
    }
  }
}
