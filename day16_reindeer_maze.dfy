// Day 16, part 1: the lowest score with which the reindeer can cross the
// maze.  `get_min_score_paths` keeps a byte per cell with one bit per
// heading already found, and a score-keyed min-heap of moves; it pops the
// cheapest move until one stands on the end cell.

module ReindeerMaze {
  import opened MinHeap
  import GridWalk
  import opened FlatGrid
  import opened MazeWalk

  type Point = GridWalk.Point

  const START_DIR: int := EAST

  /** What the search ends with: the score on reaching the end, or the heap
    * running dry (where the C code would peek at an empty heap), or the
    * step budget running out. */
  datatype Outcome = Score(score: int) | HeapEmpty | OutOfFuel

  /** `check_is_found`: zero when the heading has not been found at the
    * cell, otherwise the heading's bit. */
  function CheckIsFound(found: array<bv8>, rows: int, cols: int, row: int, col: int, direction: int): (b: bv8)
    reads found
    requires found.Length == rows * cols && 0 <= row < rows && 0 <= col < cols && 0 <= direction < 8
    ensures b == 0 || b == Bit(direction)
  {
    found[Idx(row, col, rows, cols)] & Bit(direction)
  }

  /** `mark_found`: ORs in the heading's bit; no other byte changes. */
  method MarkFound(found: array<bv8>, rows: int, cols: int, row: int, col: int, direction: int)
    requires found.Length == rows * cols && 0 <= row < rows && 0 <= col < cols && 0 <= direction < 8
    modifies found
    ensures found[..] == old(found[..])[Idx(row, col, rows, cols) := old(found[Idx(row, col, rows, cols)]) | Bit(direction)]
    ensures CheckIsFound(found, rows, cols, row, col, direction) == Bit(direction)
  {
    found[Idx(row, col, rows, cols)] := found[Idx(row, col, rows, cols)] | Bit(direction);
  }

  /** The cells a forward move may enter. */
  ghost function OpenCells(grid: array2<char>): (cells: set<Point>)
    reads grid
    ensures forall p :: p in cells <==> InGrid(p, grid.Length0, grid.Length1) && grid[p.row, p.col] == '.'
  {
    set r, c | 0 <= r < grid.Length0 && 0 <= c < grid.Length1 && grid[r, c] == '.' :: GridWalk.Point(r, c)
  }

  /** The reindeer starts on the start cell facing east. */
  function StartState(start: Point): State {
    State(start.row, start.col, START_DIR)
  }

  function StartMove(start: Point): Entry {
    Entry(0, start.row, start.col, START_DIR, false)
  }

  /** The end cell is reached at `score` in some heading, and no heading
    * of it is reached more cheaply. */
  ghost predicate CheapestFinish(end: Point, score: int, s0: State, open: set<Point>) {
    (exists d :: 0 <= d < 4 && Reachable(State(end.row, end.col, d), score, s0, open)) &&
    forall d, k :: Reachable(State(end.row, end.col, d), k, s0, open) ==> score <= k
  }

  /** No heading of the end cell can be reached at all. */
  ghost predicate NoFinish(end: Point, s0: State, open: set<Point>) {
    forall d, k :: !Reachable(State(end.row, end.col, d), k, s0, open)
  }

  /** The found bits say exactly which states are found. */
  ghost predicate FoundMatches(bits: seq<bv8>, rows: int, cols: int, visited: set<State>) {
    |bits| == rows * cols &&
    (forall v :: v in visited ==> InGrid(CellOfState(v), rows, cols) && 0 <= v.dir < 4) &&
    forall r, c, d :: 0 <= r < rows && 0 <= c < cols && 0 <= d < 4 ==>
      (bits[Idx(r, c, rows, cols)] & Bit(d) != 0 <==> State(r, c, d) in visited)
  }

  /** A queued move: on the grid, with a heading, reached at its score. */
  ghost predicate SoundEntry(e: Entry, rows: int, cols: int, s0: State, open: set<Point>) {
    0 <= e.dir < 4 && InGrid(GridWalk.Point(e.row, e.col), rows, cols) && Reachable(StateOf(e), e.key, s0, open)
  }

  ghost predicate AllSound(q: seq<Entry>, rows: int, cols: int, s0: State, open: set<Point>) {
    forall e :: e in q ==> SoundEntry(e, rows, cols, s0, open)
  }

  /** No heading of the end cell is found yet. */
  ghost predicate EndOpen(end: Point, visited: set<State>) {
    forall d :: State(end.row, end.col, d) !in visited
  }

  /** What holds after marking a move and queueing its successors, over the
    * found bytes `bits` and the heap's moves `q`. */
  ghost predicate Expanded(bits: seq<bv8>, q: seq<Entry>, rows: int, cols: int, start: Point, end: Point,
                           visited: set<State>, dist: map<State, int>, open: set<Point>) {
    InGrid(start, rows, cols) &&
    FoundMatches(bits, rows, cols, visited) && StartState(start) in visited &&
    Settled(visited, dist, StartState(start), open) &&
    AllSound(q, rows, cols, StartState(start), open) &&
    Frontier(visited, dist, q, open) &&
    EndOpen(end, visited)
  }

  /** What holds at the head of the search loop, with `m` the move in
    * hand. */
  ghost predicate SearchState(bits: seq<bv8>, q: seq<Entry>, m: Entry, rows: int, cols: int, start: Point, end: Point,
                              visited: set<State>, dist: map<State, int>, open: set<Point>) {
    InGrid(start, rows, cols) &&
    FoundMatches(bits, rows, cols, visited) &&
    (visited == {} ==> m == StartMove(start)) &&
    (visited != {} ==> StartState(start) in visited) &&
    Settled(visited, dist, StartState(start), open) &&
    AllSound(q + [m], rows, cols, StartState(start), open) &&
    (forall e :: e in q ==> m.key <= e.key) &&
    Frontier(visited, dist, q + [m], open) &&
    EndOpen(end, visited)
  }

  ghost predicate SearchInv(grid: array2<char>, found: array<bv8>, heap: Heap, m: Entry, start: Point, end: Point,
                            visited: set<State>, dist: map<State, int>, open: set<Point>)
    reads found, heap, heap.arr
  {
    heap.Valid() && heap.arr as object != found as object && found.Length == grid.Length0 * grid.Length1 &&
    SearchState(found[..], heap.arr[..heap.len], m, grid.Length0, grid.Length1, start, end, visited, dist, open)
  }

  /** `get_min_score_paths`: the lowest score over the headings the end
    * can be reached in; the heap only runs dry when the end cannot be
    * reached.  The loop is given at most `fuel` passes. */
  method GetMinScorePaths(grid: array2<char>, start: Point, end: Point, fuel: nat) returns (outcome: Outcome)
    requires InGrid(start, grid.Length0, grid.Length1)
    ensures outcome.Score? ==> CheapestFinish(end, outcome.score, StartState(start), OpenCells(grid))
    ensures outcome.HeapEmpty? ==> NoFinish(end, StartState(start), OpenCells(grid))
  {
    ghost var open := OpenCells(grid);
    var rows, cols := grid.Length0, grid.Length1;
    var found := new bv8[rows * cols](_ => 0);
    var heap := new Heap();
    ghost var visited: set<State>, dist: map<State, int> := {}, map[];
    var thisMove := StartMove(start);
    SearchStart(found[..], rows, cols, start, end, open);
    var fuelLeft := fuel;
    while thisMove.row != end.row || thisMove.col != end.col
      invariant fresh(heap) && fresh(heap.arr)
      invariant SearchInv(grid, found, heap, thisMove, start, end, visited, dist, open)
      decreases fuelLeft
    {
      if fuelLeft == 0 {
        return OutOfFuel;
      }
      fuelLeft := fuelLeft - 1;
      visited, dist := Visit(grid, found, heap, thisMove, start, end, visited, dist, open);
      if heap.len == 0 {
        NothingQueued(found[..], rows, cols, start, end, visited, dist, open);
        return HeapEmpty;
      }
      ghost var q := heap.arr[..heap.len];
      thisMove := heap.Peek();
      heap.Pop();
      PopStep(found[..], q, heap.arr[..heap.len], thisMove, rows, cols, start, end, visited, dist, open);
    }
    AtEnd(found[..], heap.arr[..heap.len], thisMove, rows, cols, start, end, visited, dist, open);
    return Score(thisMove.key);
  }

  /** Before the first pass: nothing found, nothing queued, the start in
    * hand. */
  lemma SearchStart(bits: seq<bv8>, rows: int, cols: int, start: Point, end: Point, open: set<Point>)
    requires |bits| == rows * cols && forall i :: 0 <= i < |bits| ==> bits[i] == 0
    requires InGrid(start, rows, cols)
    ensures SearchState(bits, [], StartMove(start), rows, cols, start, end, {}, map[], open)
  {
    ReachStart(StartState(start), open);
    assert [] + [StartMove(start)] == [StartMove(start)];
  }

  /** Popping the least move of an expanded queue restores the loop's
    * state. */
  lemma PopStep(bits: seq<bv8>, q: seq<Entry>, q': seq<Entry>, top: Entry, rows: int, cols: int, start: Point, end: Point,
                visited: set<State>, dist: map<State, int>, open: set<Point>)
    requires Expanded(bits, q, rows, cols, start, end, visited, dist, open)
    requires top in q && multiset(q') == multiset(q) - multiset{top}
    requires forall e :: e in q ==> top.key <= e.key
    ensures SearchState(bits, q', top, rows, cols, start, end, visited, dist, open)
  {
    assert multiset(q' + [top]) == multiset(q);
    forall e | e in q' + [top]
      ensures e in q
    {
      assert e in multiset(q' + [top]);
    }
    forall e | e in q'
      ensures top.key <= e.key
    {
      assert e in multiset(q');
    }
    FrontierPermute(visited, dist, q, q' + [top], open);
  }

  /** With nothing queued after a pass, the end cannot be reached. */
  lemma NothingQueued(bits: seq<bv8>, rows: int, cols: int, start: Point, end: Point,
                      visited: set<State>, dist: map<State, int>, open: set<Point>)
    requires Expanded(bits, [], rows, cols, start, end, visited, dist, open)
    ensures NoFinish(end, StartState(start), open)
  {
    forall d
      ensures forall k :: !Reachable(State(end.row, end.col, d), k, StartState(start), open)
    {
      NoRoute(State(end.row, end.col, d), visited, dist, StartState(start), open);
    }
  }

  /** The move in hand on the end cell has the lowest score of the end. */
  lemma AtEnd(bits: seq<bv8>, q: seq<Entry>, m: Entry, rows: int, cols: int, start: Point, end: Point,
              visited: set<State>, dist: map<State, int>, open: set<Point>)
    requires SearchState(bits, q, m, rows, cols, start, end, visited, dist, open)
    requires m.row == end.row && m.col == end.col
    ensures CheapestFinish(end, m.key, StartState(start), open)
  {
    assert m in q + [m];
    assert Reachable(State(end.row, end.col, m.dir), m.key, StartState(start), open);
    forall d, k | Reachable(State(end.row, end.col, d), k, StartState(start), open)
      ensures m.key <= k
    {
      if visited != {} {
        forall e | e in q + [m] && StateOf(e) !in visited
          ensures m.key <= e.key
        {
          if e != m {
            assert e in q;
          }
        }
        NoCheaperRoute(State(end.row, end.col, d), m.key, visited, dist, q + [m], StartState(start), open);
      }
    }
  }

  /** One pass of the loop up to the pop: marks the move in hand found and
    * queues the forward move and the two turns that are not found. */
  method Visit(grid: array2<char>, found: array<bv8>, heap: Heap, m: Entry, start: Point, end: Point,
               ghost visited: set<State>, ghost dist: map<State, int>, ghost open: set<Point>)
    returns (ghost visited': set<State>, ghost dist': map<State, int>)
    requires open == OpenCells(grid)
    requires SearchInv(grid, found, heap, m, start, end, visited, dist, open)
    requires m.row != end.row || m.col != end.col
    modifies found, heap, heap.arr
    ensures heap.Valid() && heap.arr as object != found as object && found.Length == grid.Length0 * grid.Length1
    ensures heap.arr == old(heap.arr) || fresh(heap.arr)
    ensures Expanded(found[..], heap.arr[..heap.len], grid.Length0, grid.Length1, start, end, visited', dist', open)
  {
    var rows, cols := grid.Length0, grid.Length1;
    ghost var s0 := StartState(start);
    ghost var bits := found[..];
    ghost var q0 := heap.arr[..heap.len];
    assert m in q0 + [m];
    MarkFound(found, rows, cols, m.row, m.col, m.dir);
    visited' := visited + {StateOf(m)};
    dist' := if StateOf(m) in visited then dist else dist[StateOf(m) := m.key];
    SettleStep(bits, found[..], q0, m, rows, cols, start, end, visited, dist, open);
    ghost var pushed := PushMoves(grid, found, heap, m, visited', s0, open);
    FrontierExpand(visited, dist, q0, m, pushed, heap.arr[..heap.len], open);
    assert AllSound(heap.arr[..heap.len], rows, cols, s0, open) by {
      forall e | e in heap.arr[..heap.len]
        ensures SoundEntry(e, rows, cols, s0, open)
      {
        assert e in multiset(heap.arr[..heap.len]);
        if e !in pushed {
          assert e in multiset(q0);
          assert e in q0 + [m];
        }
      }
    }
  }

  /** Marking the move in hand keeps the found bits exact and its recorded
    * score a lower bound. */
  lemma SettleStep(bits: seq<bv8>, bits': seq<bv8>, q: seq<Entry>, m: Entry, rows: int, cols: int,
                   start: Point, end: Point, visited: set<State>, dist: map<State, int>, open: set<Point>)
    requires SearchState(bits, q, m, rows, cols, start, end, visited, dist, open)
    requires m.row != end.row || m.col != end.col
    requires InGrid(GridWalk.Point(m.row, m.col), rows, cols) && 0 <= m.dir < 4
    requires bits' == bits[Idx(m.row, m.col, rows, cols) := bits[Idx(m.row, m.col, rows, cols)] | Bit(m.dir)]
    ensures FoundMatches(bits', rows, cols, visited + {StateOf(m)})
    ensures StartState(start) in visited + {StateOf(m)}
    ensures Settled(visited + {StateOf(m)}, if StateOf(m) in visited then dist else dist[StateOf(m) := m.key],
                    StartState(start), open)
    ensures EndOpen(end, visited + {StateOf(m)})
  {
    var s0 := StartState(start);
    var s := StateOf(m);
    var visited' := visited + {s};
    var dist' := if s in visited then dist else dist[s := m.key];
    var i := Idx(m.row, m.col, rows, cols);
    forall r, c, d | 0 <= r < rows && 0 <= c < cols && 0 <= d < 4
      ensures bits'[Idx(r, c, rows, cols)] & Bit(d) != 0 <==> State(r, c, d) in visited'
    {
      IdxInjective(r, c, m.row, m.col, rows, cols);
      if r == m.row && c == m.col {
        MarkedBits(bits[i], m.dir, d);
      }
    }
    if s !in visited {
      forall k | Reachable(s, k, s0, open)
        ensures m.key <= k
      {
        if visited != {} {
          forall e | e in q + [m] && StateOf(e) !in visited
            ensures m.key <= e.key
          {
            if e != m {
              assert e in q;
            }
          }
          NoCheaperRoute(s, m.key, visited, dist, q + [m], s0, open);
        }
      }
    }
  }

  /** The three guarded pushes of a pass; every successor of the move in
    * hand that is not found is queued at the move's score plus the price. */
  method PushMoves(grid: array2<char>, found: array<bv8>, heap: Heap, m: Entry,
                   ghost visited: set<State>, ghost s0: State, ghost open: set<Point>)
    returns (ghost pushed: seq<Entry>)
    requires open == OpenCells(grid)
    requires heap.Valid() && heap.arr as object != found as object
    requires FoundMatches(found[..], grid.Length0, grid.Length1, visited)
    requires InGrid(GridWalk.Point(m.row, m.col), grid.Length0, grid.Length1) && 0 <= m.dir < 4
    requires Reachable(StateOf(m), m.key, s0, open)
    modifies heap, heap.arr
    ensures heap.Valid() && (heap.arr == old(heap.arr) || fresh(heap.arr))
    ensures multiset(heap.arr[..heap.len]) == multiset(old(heap.arr[..heap.len])) + multiset(pushed)
    ensures AllSound(pushed, grid.Length0, grid.Length1, s0, open)
    ensures forall u :: Move(StateOf(m), u, open) && u !in visited ==>
      exists e :: e in pushed && StateOf(e) == u && e.key <= m.key + Cost(StateOf(m), u)
  {
    var forward := PushForward(grid, found, heap, m, visited, s0, open);
    var left := PushTurn(grid, found, heap, m, TurnLeft(m.dir), visited, s0, open);
    var right := PushTurn(grid, found, heap, m, TurnRight(m.dir), visited, s0, open);
    pushed := forward + left + right;
  }

  /** The switch on the heading in `get_min_score_paths`: the cell ahead,
    * and whether the coordinate it moved stays inside the map. */
  method NextPoint(m: Entry, rows: int, cols: int) returns (nextRow: int, nextCol: int, validPoint: bool)
    requires InGrid(GridWalk.Point(m.row, m.col), rows, cols) && 0 <= m.dir < 4
    ensures State(nextRow, nextCol, m.dir) == Ahead(StateOf(m))
    ensures validPoint <==> InGrid(GridWalk.Point(nextRow, nextCol), rows, cols)
  {
    nextRow, nextCol := m.row, m.col;
    if m.dir == EAST {
      nextCol := nextCol + 1;
      validPoint := nextCol < cols;
    } else if m.dir == NORTH {
      nextRow := nextRow - 1;
      validPoint := nextRow >= 0;
    } else if m.dir == WEST {
      nextCol := nextCol - 1;
      validPoint := nextCol >= 0;
    } else {
      nextRow := nextRow + 1;
      validPoint := nextRow < rows;
    }
  }

  /** The forward push: the next cell in the heading, if it is inside the
    * map, '.', and not found in this heading. */
  method PushForward(grid: array2<char>, found: array<bv8>, heap: Heap, m: Entry,
                     ghost visited: set<State>, ghost s0: State, ghost open: set<Point>)
    returns (ghost pushed: seq<Entry>)
    requires open == OpenCells(grid)
    requires heap.Valid() && heap.arr as object != found as object
    requires FoundMatches(found[..], grid.Length0, grid.Length1, visited)
    requires InGrid(GridWalk.Point(m.row, m.col), grid.Length0, grid.Length1) && 0 <= m.dir < 4
    requires Reachable(StateOf(m), m.key, s0, open)
    modifies heap, heap.arr
    ensures heap.Valid() && (heap.arr == old(heap.arr) || fresh(heap.arr))
    ensures multiset(heap.arr[..heap.len]) == multiset(old(heap.arr[..heap.len])) + multiset(pushed)
    ensures AllSound(pushed, grid.Length0, grid.Length1, s0, open)
    ensures forall u :: u == Ahead(StateOf(m)) && CellOfState(u) in open && u !in visited ==>
      exists e :: e in pushed && StateOf(e) == u && e.key == m.key + MOVE_COST
  {
    var rows, cols := grid.Length0, grid.Length1;
    var nextRow, nextCol, validPoint := NextPoint(m, rows, cols);
    if validPoint && grid[nextRow, nextCol] == '.' && CheckIsFound(found, rows, cols, nextRow, nextCol, m.dir) == 0 {
      var e := Entry(m.key + MOVE_COST, nextRow, nextCol, m.dir, false);
      ForwardSound(m, e, rows, cols, s0, open);
      heap.Push(e);
      pushed := [e];
    } else {
      pushed := [];
    }
  }

  /** A turn push: the same cell in heading `nextDir`, if not found. */
  method PushTurn(grid: array2<char>, found: array<bv8>, heap: Heap, m: Entry, nextDir: int,
                  ghost visited: set<State>, ghost s0: State, ghost open: set<Point>)
    returns (ghost pushed: seq<Entry>)
    requires heap.Valid() && heap.arr as object != found as object
    requires FoundMatches(found[..], grid.Length0, grid.Length1, visited)
    requires InGrid(GridWalk.Point(m.row, m.col), grid.Length0, grid.Length1) && 0 <= m.dir < 4
    requires nextDir == TurnLeft(m.dir) || nextDir == TurnRight(m.dir)
    requires Reachable(StateOf(m), m.key, s0, open)
    modifies heap, heap.arr
    ensures heap.Valid() && (heap.arr == old(heap.arr) || fresh(heap.arr))
    ensures multiset(heap.arr[..heap.len]) == multiset(old(heap.arr[..heap.len])) + multiset(pushed)
    ensures AllSound(pushed, grid.Length0, grid.Length1, s0, open)
    ensures State(m.row, m.col, nextDir) !in visited ==>
      exists e :: e in pushed && StateOf(e) == State(m.row, m.col, nextDir) && e.key == m.key + TURN_COST
  {
    if CheckIsFound(found, grid.Length0, grid.Length1, m.row, m.col, nextDir) == 0 {
      var e := Entry(m.key + TURN_COST, m.row, m.col, nextDir, false);
      TurnSound(m, e, grid.Length0, grid.Length1, s0, open);
      heap.Push(e);
      pushed := [e];
    } else {
      pushed := [];
    }
  }

  /** The forward move is a move of the maze, at the move's price. */
  lemma ForwardSound(m: Entry, e: Entry, rows: int, cols: int, s0: State, open: set<Point>)
    requires Reachable(StateOf(m), m.key, s0, open) && 0 <= m.dir < 4
    requires StateOf(e) == Ahead(StateOf(m)) && e.key == m.key + MOVE_COST
    requires CellOfState(StateOf(e)) in open && InGrid(GridWalk.Point(e.row, e.col), rows, cols)
    ensures AllSound([e], rows, cols, s0, open)
  {
    ReachStep(StateOf(m), m.key, StateOf(e), s0, open);
    assert SoundEntry(e, rows, cols, s0, open);
  }

  /** A turn in place is a move of the maze, at the turn's price. */
  lemma TurnSound(m: Entry, e: Entry, rows: int, cols: int, s0: State, open: set<Point>)
    requires Reachable(StateOf(m), m.key, s0, open) && 0 <= m.dir < 4
    requires InGrid(GridWalk.Point(m.row, m.col), rows, cols)
    requires e.row == m.row && e.col == m.col && e.key == m.key + TURN_COST
    requires e.dir == TurnLeft(m.dir) || e.dir == TurnRight(m.dir)
    ensures AllSound([e], rows, cols, s0, open)
  {
    ReachStep(StateOf(m), m.key, StateOf(e), s0, open);
    assert SoundEntry(e, rows, cols, s0, open);
  }
}
