// Day 16, part 2 (first attempt): the same search as part 1, but each cell
// keeps a score and a "reached by a forward move" flag per heading, ties on
// a forward move are re-queued, the loop runs on until the popped score
// passes the best end score, and `make_min_paths` then walks the flags back
// from the end to collect the squares of the best paths.

module ReindeerPaths {
  import opened MinHeap
  import GridWalk
  import opened FlatGrid
  import opened MazeWalk
  import opened ReindeerMaze

  const INT_MAX: int := 0x7fff_ffff

  /** `FoundSquare`: per heading, the score it was found with (-1 when not
    * found) and whether a best path enters it by a forward move. */
  datatype FoundSquare = FoundSquare(scores: seq<int>, parents: seq<bool>)

  predicate WellFormed(f: FoundSquare) {
    |f.scores| == 4 && |f.parents| == 4
  }

  const UNFOUND: FoundSquare := FoundSquare([-1, -1, -1, -1], [false, false, false, false])

  ghost predicate AllWellFormed(fs: seq<FoundSquare>) {
    forall i :: 0 <= i < |fs| ==> WellFormed(fs[i])
  }

  /** The initialisation loops of `get_min_score_paths`: every heading of
    * every cell starts not found and without a parent. */
  method NewFoundMap(size: int) returns (found: array<FoundSquare>)
    requires size >= 0
    ensures fresh(found) && found.Length == size
    ensures forall i :: 0 <= i < size ==> found[i] == UNFOUND
  {
    found := new FoundSquare[size](_ => FoundSquare([0, 0, 0, 0], [false, false, false, false]));
    var i := 0;
    while i < size
      invariant 0 <= i <= size
      invariant forall k :: 0 <= k < i ==> found[k] == UNFOUND
      invariant forall k :: i <= k < size ==> WellFormed(found[k])
    {
      var j := 0;
      while j < 4
        invariant 0 <= j <= 4
        invariant forall k :: 0 <= k < i ==> found[k] == UNFOUND
        invariant forall k :: i <= k < size ==> WellFormed(found[k])
        invariant forall t :: 0 <= t < j ==> found[i].scores[t] == -1 && !found[i].parents[t]
      {
        found[i] := found[i].(parents := found[i].parents[j := false]);
        found[i] := found[i].(scores := found[i].scores[j := -1]);
        j := j + 1;
      }
      assert found[i].scores == UNFOUND.scores && found[i].parents == UNFOUND.parents;
      i := i + 1;
    }
  }

  /** `check_is_found`: the score the heading was found with, -1 if not. */
  function CheckIsFound(found: array<FoundSquare>, rows: int, cols: int, row: int, col: int, direction: int): int
    reads found
    requires found.Length == rows * cols && 0 <= row < rows && 0 <= col < cols && 0 <= direction < 4
    requires WellFormed(found[Idx(row, col, rows, cols)])
  {
    found[Idx(row, col, rows, cols)].scores[direction]
  }

  /** `mark_found`: records the score and the parent flag of exactly one
    * heading of one cell. */
  method MarkFound(found: array<FoundSquare>, rows: int, cols: int, row: int, col: int, score: int,
                   fromParent: bool, direction: int)
    requires found.Length == rows * cols && 0 <= row < rows && 0 <= col < cols && 0 <= direction < 4
    requires WellFormed(found[Idx(row, col, rows, cols)])
    modifies found
    ensures found[..] == old(found[..])[Idx(row, col, rows, cols) :=
      FoundSquare(old(found[Idx(row, col, rows, cols)].scores)[direction := score],
                  old(found[Idx(row, col, rows, cols)].parents)[direction := fromParent])]
    ensures CheckIsFound(found, rows, cols, row, col, direction) == score
    ensures forall d :: 0 <= d < 4 && d != direction ==>
      CheckIsFound(found, rows, cols, row, col, d) == old(CheckIsFound(found, rows, cols, row, col, d))
  {
    var i := Idx(row, col, rows, cols);
    found[i] := found[i].(scores := found[i].scores[direction := score]);
    found[i] := found[i].(parents := found[i].parents[direction := fromParent]);
  }

  /** A found score says exactly which states are found. */
  ghost predicate FoundMatches(fs: seq<FoundSquare>, rows: int, cols: int, visited: set<State>) {
    |fs| == rows * cols && AllWellFormed(fs) &&
    (forall v :: v in visited ==> InGrid(CellOfState(v), rows, cols) && 0 <= v.dir < 4) &&
    forall r, c, d :: 0 <= r < rows && 0 <= c < cols && 0 <= d < 4 ==>
      (fs[Idx(r, c, rows, cols)].scores[d] != -1 <==> State(r, c, d) in visited)
  }

  /** The check after each pop: the best end score only ever decreases. */
  function CheckForSolution(m: Entry, end: Point, minScore: int): (best: int)
    ensures best <= minScore
    ensures best < minScore <==> m.row == end.row && m.col == end.col && m.key < minScore
    ensures best < minScore ==> best == m.key
  {
    if m.row == end.row && m.col == end.col && m.key < minScore then m.key else minScore
  }

  /** What the best end score means once the loop stops: a score the end
    * is reached with, the least one when the start is not the end, and no
    * route to the end below INT_MAX when it is still INT_MAX. */
  ghost predicate MinScoreMeaning(end: Point, start: Point, minScore: int, open: set<Point>) {
    minScore <= INT_MAX &&
    (minScore < INT_MAX ==> exists d :: 0 <= d < 4 && Reachable(State(end.row, end.col, d), minScore, StartState(start), open)) &&
    (minScore < INT_MAX && start != end ==>
      forall d, k :: Reachable(State(end.row, end.col, d), k, StartState(start), open) ==> minScore <= k) &&
    (minScore == INT_MAX && start != end ==>
      forall d, k :: Reachable(State(end.row, end.col, d), k, StartState(start), open) ==> INT_MAX <= k)
  }

  /** The best end score so far: as `MinScoreMeaning` for a score below
    * INT_MAX; while it is INT_MAX, the end headings found so far were
    * found at no less than INT_MAX. */
  ghost predicate BestSoFar(end: Point, start: Point, minScore: int, visited: set<State>, dist: map<State, int>,
                            open: set<Point>) {
    minScore <= INT_MAX &&
    (minScore < INT_MAX ==> exists d :: 0 <= d < 4 && Reachable(State(end.row, end.col, d), minScore, StartState(start), open)) &&
    (minScore < INT_MAX && start != end ==>
      forall d, k :: Reachable(State(end.row, end.col, d), k, StartState(start), open) ==> minScore <= k) &&
    (minScore == INT_MAX && start != end ==>
      forall d :: State(end.row, end.col, d) in visited ==>
        State(end.row, end.col, d) in dist && dist[State(end.row, end.col, d)] >= INT_MAX)
  }

  /** The loop's state at its head, with `m` the move in hand. */
  ghost predicate TieState(fs: seq<FoundSquare>, q: seq<Entry>, m: Entry, rows: int, cols: int, start: Point, end: Point,
                           minScore: int, visited: set<State>, dist: map<State, int>, open: set<Point>) {
    InGrid(start, rows, cols) &&
    FoundMatches(fs, rows, cols, visited) &&
    (visited == {} ==> m == StartMove(start)) &&
    (visited != {} ==> StartState(start) in visited) &&
    Settled(visited, dist, StartState(start), open) &&
    AllSound(q + [m], rows, cols, StartState(start), open) &&
    (forall e :: e in q ==> m.key <= e.key) &&
    Frontier(visited, dist, q + [m], open) &&
    BestSoFar(end, start, minScore, visited, dist, open) &&
    (minScore == INT_MAX && start != end && m.row == end.row && m.col == end.col ==> m.key >= INT_MAX)
  }

  /** The state after marking the move in hand, of score `lo`, and queueing
    * its successors. */
  ghost predicate TieExpanded(fs: seq<FoundSquare>, q: seq<Entry>, lo: int, rows: int, cols: int, start: Point, end: Point,
                              minScore: int, visited: set<State>, dist: map<State, int>, open: set<Point>) {
    InGrid(start, rows, cols) &&
    FoundMatches(fs, rows, cols, visited) && StartState(start) in visited &&
    Settled(visited, dist, StartState(start), open) &&
    AllSound(q, rows, cols, StartState(start), open) &&
    (forall e :: e in q ==> lo <= e.key) &&
    Frontier(visited, dist, q, open) &&
    BestSoFar(end, start, minScore, visited, dist, open)
  }

  ghost predicate TieInv(grid: array2<char>, found: array<FoundSquare>, heap: Heap, m: Entry, start: Point, end: Point,
                         minScore: int, visited: set<State>, dist: map<State, int>, open: set<Point>)
    reads found, heap, heap.arr
  {
    heap.Valid() && heap.arr as object != found as object && found.Length == grid.Length0 * grid.Length1 &&
    TieState(found[..], heap.arr[..heap.len], m, grid.Length0, grid.Length1, start, end, minScore, visited, dist, open)
  }

  /** How the search loop ends: the popped score passed the best end
    * score, or the heap ran dry (where the C code would peek at an empty
    * heap), or the step budget ran out. */
  datatype SearchEnd = Finished(minScore: int) | RanDry(minScore: int) | Exhausted

  /** The search loop of `get_min_score_paths`, over a found map that
    * starts all not found. */
  method SearchTies(grid: array2<char>, found: array<FoundSquare>, start: Point, end: Point, fuel: nat)
    returns (r: SearchEnd)
    requires InGrid(start, grid.Length0, grid.Length1) && found.Length == grid.Length0 * grid.Length1
    requires forall i :: 0 <= i < found.Length ==> found[i] == UNFOUND
    modifies found
    ensures AllWellFormed(found[..])
    ensures !r.Exhausted? ==> MinScoreMeaning(end, start, r.minScore, OpenCells(grid))
  {
    ghost var open := OpenCells(grid);
    var rows, cols := grid.Length0, grid.Length1;
    var heap := new Heap();
    ghost var visited: set<State>, dist: map<State, int> := {}, map[];
    var thisMove := StartMove(start);
    var minScore := INT_MAX;
    TieStart(found[..], rows, cols, start, end, open);
    var fuelLeft := fuel;
    while thisMove.key <= minScore
      invariant fresh(heap) && fresh(heap.arr)
      invariant TieInv(grid, found, heap, thisMove, start, end, minScore, visited, dist, open)
      decreases fuelLeft
    {
      if fuelLeft == 0 {
        return Exhausted;
      }
      fuelLeft := fuelLeft - 1;
      visited, dist := VisitTies(grid, found, heap, thisMove, start, end, minScore, visited, dist, open);
      if heap.len == 0 {
        TieRanDry(found[..], thisMove.key, rows, cols, start, end, minScore, visited, dist, open);
        return RanDry(minScore);
      }
      ghost var q := heap.arr[..heap.len];
      ghost var lo := thisMove.key;
      thisMove := heap.Peek();
      heap.Pop();
      ghost var before := minScore;
      minScore := CheckForSolution(thisMove, end, minScore);
      TiePopStep(found[..], q, heap.arr[..heap.len], thisMove, lo, rows, cols, start, end, before, visited, dist, open);
    }
    TieExit(found[..], heap.arr[..heap.len], thisMove, rows, cols, start, end, minScore, visited, dist, open);
    return Finished(minScore);
  }

  lemma TieStart(fs: seq<FoundSquare>, rows: int, cols: int, start: Point, end: Point, open: set<Point>)
    requires |fs| == rows * cols && forall i :: 0 <= i < |fs| ==> fs[i] == UNFOUND
    requires InGrid(start, rows, cols)
    ensures TieState(fs, [], StartMove(start), rows, cols, start, end, INT_MAX, {}, map[], open)
  {
    ReachStart(StartState(start), open);
    assert [] + [StartMove(start)] == [StartMove(start)];
    forall r, c, d | 0 <= r < rows && 0 <= c < cols && 0 <= d < 4
      ensures fs[Idx(r, c, rows, cols)].scores[d] == -1
    {
      assert fs[Idx(r, c, rows, cols)] == UNFOUND;
    }
  }

  /** Popping the least move and checking it against the end keeps the
    * loop's state. */
  lemma TiePopStep(fs: seq<FoundSquare>, q: seq<Entry>, q': seq<Entry>, top: Entry, lo: int, rows: int, cols: int,
                   start: Point, end: Point, minScore: int, visited: set<State>, dist: map<State, int>, open: set<Point>)
    requires TieExpanded(fs, q, lo, rows, cols, start, end, minScore, visited, dist, open)
    requires top in q && multiset(q') == multiset(q) - multiset{top}
    requires forall e :: e in q ==> top.key <= e.key
    ensures TieState(fs, q', top, rows, cols, start, end, CheckForSolution(top, end, minScore), visited, dist, open)
  {
    var s0 := StartState(start);
    assert multiset(q' + [top]) == multiset(q);
    forall e | e in q' + [top]
      ensures e in q
    {
      assert e in multiset(q' + [top]);
    }
    forall e | e in q'
      ensures top.key <= e.key
    {
      assert e in multiset(q');
    }
    FrontierPermute(visited, dist, q, q' + [top], open);
    var best := CheckForSolution(top, end, minScore);
    if best < minScore {
      assert SoundEntry(top, rows, cols, s0, open);
      assert Reachable(State(end.row, end.col, top.dir), best, s0, open);
      if start != end {
        forall d, k | Reachable(State(end.row, end.col, d), k, s0, open)
          ensures best <= k
        {
          if minScore == INT_MAX && State(end.row, end.col, d) !in visited {
            NoCheaperRoute(State(end.row, end.col, d), top.key, visited, dist, q, s0, open);
          }
        }
      }
    }
  }

  /** The heap running dry after a pass: whatever the best end score is,
    * it has its meaning. */
  lemma TieRanDry(fs: seq<FoundSquare>, lo: int, rows: int, cols: int, start: Point, end: Point, minScore: int,
                  visited: set<State>, dist: map<State, int>, open: set<Point>)
    requires TieExpanded(fs, [], lo, rows, cols, start, end, minScore, visited, dist, open)
    ensures MinScoreMeaning(end, start, minScore, open)
  {
    if minScore == INT_MAX && start != end {
      forall d, k | Reachable(State(end.row, end.col, d), k, StartState(start), open)
        ensures INT_MAX <= k
      {
        if State(end.row, end.col, d) !in visited {
          NoRoute(State(end.row, end.col, d), visited, dist, StartState(start), open);
        }
      }
    }
  }

  /** The loop stopping on a popped score above the best end score. */
  lemma TieExit(fs: seq<FoundSquare>, q: seq<Entry>, m: Entry, rows: int, cols: int, start: Point, end: Point,
                minScore: int, visited: set<State>, dist: map<State, int>, open: set<Point>)
    requires TieState(fs, q, m, rows, cols, start, end, minScore, visited, dist, open)
    requires m.key > minScore
    ensures MinScoreMeaning(end, start, minScore, open)
  {
    var s0 := StartState(start);
    if minScore == INT_MAX && start != end {
      assert visited != {};
      forall d, k | Reachable(State(end.row, end.col, d), k, s0, open)
        ensures INT_MAX <= k
      {
        if State(end.row, end.col, d) !in visited {
          forall e | e in q + [m] && StateOf(e) !in visited
            ensures m.key <= e.key
          {
            if e != m {
              assert e in q;
            }
          }
          NoCheaperRoute(State(end.row, end.col, d), m.key, visited, dist, q + [m], s0, open);
        }
      }
    }
  }

  /** One pass of the loop up to the pop: marks the move in hand with its
    * score and move kind, then queues the forward move (also on a tie) and
    * the two turns not found. */
  method VisitTies(grid: array2<char>, found: array<FoundSquare>, heap: Heap, m: Entry, start: Point, end: Point,
                   minScore: int, ghost visited: set<State>, ghost dist: map<State, int>, ghost open: set<Point>)
    returns (ghost visited': set<State>, ghost dist': map<State, int>)
    requires open == OpenCells(grid)
    requires TieInv(grid, found, heap, m, start, end, minScore, visited, dist, open)
    modifies found, heap, heap.arr
    ensures heap.Valid() && heap.arr as object != found as object && found.Length == grid.Length0 * grid.Length1
    ensures heap.arr == old(heap.arr) || fresh(heap.arr)
    ensures TieExpanded(found[..], heap.arr[..heap.len], m.key, grid.Length0, grid.Length1, start, end, minScore,
                        visited', dist', open)
  {
    var rows, cols := grid.Length0, grid.Length1;
    ghost var s0 := StartState(start);
    ghost var fs := found[..];
    ghost var q0 := heap.arr[..heap.len];
    assert m in q0 + [m];
    assert found[Idx(m.row, m.col, rows, cols)] == fs[Idx(m.row, m.col, rows, cols)];
    MarkFound(found, rows, cols, m.row, m.col, m.key, m.forward, m.dir);
    visited' := visited + {StateOf(m)};
    dist' := if StateOf(m) in visited then dist else dist[StateOf(m) := m.key];
    TieSettleStep(fs, found[..], q0, m, rows, cols, start, end, minScore, visited, dist, open);
    ghost var pushed := PushMovesTies(grid, found, heap, m, visited', s0, open);
    FrontierExpand(visited, dist, q0, m, pushed, heap.arr[..heap.len], open);
    assert AllSound(heap.arr[..heap.len], rows, cols, s0, open) && forall e :: e in heap.arr[..heap.len] ==> m.key <= e.key by {
      forall e | e in heap.arr[..heap.len]
        ensures SoundEntry(e, rows, cols, s0, open) && m.key <= e.key
      {
        assert e in multiset(heap.arr[..heap.len]);
        if e !in pushed {
          assert e in multiset(q0);
          assert e in q0 + [m];
        }
      }
    }
  }

  /** Marking the move in hand keeps the found scores exact, its recorded
    * score a lower bound, and the best end score's meaning. */
  lemma TieSettleStep(fs: seq<FoundSquare>, fs': seq<FoundSquare>, q: seq<Entry>, m: Entry, rows: int, cols: int,
                      start: Point, end: Point, minScore: int, visited: set<State>, dist: map<State, int>, open: set<Point>)
    requires TieState(fs, q, m, rows, cols, start, end, minScore, visited, dist, open)
    requires InGrid(GridWalk.Point(m.row, m.col), rows, cols) && 0 <= m.dir < 4 && m.key >= 0
    requires fs' == fs[Idx(m.row, m.col, rows, cols) :=
      FoundSquare(fs[Idx(m.row, m.col, rows, cols)].scores[m.dir := m.key],
                  fs[Idx(m.row, m.col, rows, cols)].parents[m.dir := m.forward])]
    ensures FoundMatches(fs', rows, cols, visited + {StateOf(m)})
    ensures StartState(start) in visited + {StateOf(m)}
    ensures Settled(visited + {StateOf(m)}, if StateOf(m) in visited then dist else dist[StateOf(m) := m.key],
                    StartState(start), open)
    ensures BestSoFar(end, start, minScore, visited + {StateOf(m)},
                      if StateOf(m) in visited then dist else dist[StateOf(m) := m.key], open)
  {
    var s0 := StartState(start);
    var s := StateOf(m);
    var visited' := visited + {s};
    var i := Idx(m.row, m.col, rows, cols);
    forall k | 0 <= k < |fs'|
      ensures WellFormed(fs'[k])
    {
    }
    forall r, c, d | 0 <= r < rows && 0 <= c < cols && 0 <= d < 4
      ensures fs'[Idx(r, c, rows, cols)].scores[d] != -1 <==> State(r, c, d) in visited'
    {
      IdxInjective(r, c, m.row, m.col, rows, cols);
    }
    if s !in visited {
      forall k | Reachable(s, k, s0, open)
        ensures m.key <= k
      {
        if visited != {} {
          forall e | e in q + [m] && StateOf(e) !in visited
            ensures m.key <= e.key
          {
            if e != m {
              assert e in q;
            }
          }
          NoCheaperRoute(s, m.key, visited, dist, q + [m], s0, open);
        }
      }
    }
  }

  /** What each push of a pass needs and keeps: a valid heap apart from
    * the found map, the found map matching the found states, and the move
    * in hand on the grid and reachable at its score. */
  ghost predicate PushReady(found: array<FoundSquare>, heap: Heap, rows: int, cols: int, m: Entry,
                            visited: set<State>, s0: State, open: set<Point>)
    reads found, heap, heap.arr
  {
    heap.Valid() && heap.arr as object != found as object &&
    FoundMatches(found[..], rows, cols, visited) &&
    InGrid(GridWalk.Point(m.row, m.col), rows, cols) && 0 <= m.dir < 4 &&
    Reachable(StateOf(m), m.key, s0, open)
  }

  /** The three guarded pushes of a pass. */
  method PushMovesTies(grid: array2<char>, found: array<FoundSquare>, heap: Heap, m: Entry,
                       ghost visited: set<State>, ghost s0: State, ghost open: set<Point>)
    returns (ghost pushed: seq<Entry>)
    requires open == OpenCells(grid)
    requires PushReady(found, heap, grid.Length0, grid.Length1, m, visited, s0, open)
    modifies found, heap, heap.arr
    ensures PushReady(found, heap, grid.Length0, grid.Length1, m, visited, s0, open)
    ensures heap.arr == old(heap.arr) || fresh(heap.arr)
    ensures multiset(heap.arr[..heap.len]) == multiset(old(heap.arr[..heap.len])) + multiset(pushed)
    ensures AllSound(pushed, grid.Length0, grid.Length1, s0, open)
    ensures forall e :: e in pushed ==> e.key > m.key
    ensures forall u :: Move(StateOf(m), u, open) && u !in visited ==>
      exists e :: e in pushed && StateOf(e) == u && e.key <= m.key + Cost(StateOf(m), u)
  {
    var forward := PushForwardTie(grid, found, heap, m, visited, s0, open);
    var left, right := PushTurnsTies(grid, found, heap, m, visited, s0, open);
    pushed := forward + left + right;
    CombinePushes(m, forward, left, right, grid.Length0, grid.Length1, visited, s0, open);
  }

  /** The left turn push, then the right one. */
  method PushTurnsTies(grid: array2<char>, found: array<FoundSquare>, heap: Heap, m: Entry,
                       ghost visited: set<State>, ghost s0: State, ghost open: set<Point>)
    returns (ghost left: seq<Entry>, ghost right: seq<Entry>)
    requires PushReady(found, heap, grid.Length0, grid.Length1, m, visited, s0, open)
    modifies heap, heap.arr
    ensures PushReady(found, heap, grid.Length0, grid.Length1, m, visited, s0, open)
    ensures heap.arr == old(heap.arr) || fresh(heap.arr)
    ensures multiset(heap.arr[..heap.len]) == multiset(old(heap.arr[..heap.len])) + multiset(left + right)
    ensures AllSound(left, grid.Length0, grid.Length1, s0, open) && AllSound(right, grid.Length0, grid.Length1, s0, open)
    ensures left == [] || left == [Entry(m.key + TURN_COST, m.row, m.col, TurnLeft(m.dir), false)]
    ensures left != [] <==> State(m.row, m.col, TurnLeft(m.dir)) !in visited
    ensures right == [] || right == [Entry(m.key + TURN_COST, m.row, m.col, TurnRight(m.dir), false)]
    ensures right != [] <==> State(m.row, m.col, TurnRight(m.dir)) !in visited
  {
    left := PushTurnTie(grid, found, heap, m, TurnLeft(m.dir), visited, s0, open);
    right := PushTurnTie(grid, found, heap, m, TurnRight(m.dir), visited, s0, open);
  }

  /** The forward push and the two turn pushes together cover every
    * successor not found, above the move's score. */
  lemma CombinePushes(m: Entry, forward: seq<Entry>, left: seq<Entry>, right: seq<Entry>, rows: int, cols: int,
                      visited: set<State>, s0: State, open: set<Point>)
    requires 0 <= m.dir < 4
    requires AllSound(forward, rows, cols, s0, open) && AllSound(left, rows, cols, s0, open) && AllSound(right, rows, cols, s0, open)
    requires forward == [] || forward == [Entry(m.key + MOVE_COST, Ahead(StateOf(m)).row, Ahead(StateOf(m)).col, m.dir, true)]
    requires CellOfState(Ahead(StateOf(m))) in open && Ahead(StateOf(m)) !in visited ==> forward != []
    requires left == [] || left == [Entry(m.key + TURN_COST, m.row, m.col, TurnLeft(m.dir), false)]
    requires left != [] <==> State(m.row, m.col, TurnLeft(m.dir)) !in visited
    requires right == [] || right == [Entry(m.key + TURN_COST, m.row, m.col, TurnRight(m.dir), false)]
    requires right != [] <==> State(m.row, m.col, TurnRight(m.dir)) !in visited
    ensures AllSound(forward + left + right, rows, cols, s0, open)
    ensures forall e :: e in forward + left + right ==> e.key > m.key
    ensures forall u :: Move(StateOf(m), u, open) && u !in visited ==>
      exists e :: e in forward + left + right && StateOf(e) == u && e.key <= m.key + Cost(StateOf(m), u)
  {
    var pushed := forward + left + right;
    forall e | e in pushed
      ensures e.key > m.key && SoundEntry(e, rows, cols, s0, open)
    {
      if e in forward {
      } else if e in left {
      } else {
        assert e in right;
      }
    }
    var s := StateOf(m);
    forall u | Move(s, u, open) && u !in visited
      ensures exists e :: e in pushed && StateOf(e) == u && e.key <= m.key + Cost(s, u)
    {
      if u == Ahead(s) && CellOfState(u) in open {
        assert forward[0] in pushed && StateOf(forward[0]) == u;
      } else if u == State(m.row, m.col, TurnLeft(m.dir)) {
        assert left[0] in pushed && StateOf(left[0]) == u;
      } else {
        assert right[0] in pushed && StateOf(right[0]) == u;
      }
    }
  }

  /** The forward push: onto an in-bounds '.' cell whose heading is not
    * found, or found with exactly this move's score, in which case the
    * cell also gets its parent flag for the heading. */
  method PushForwardTie(grid: array2<char>, found: array<FoundSquare>, heap: Heap, m: Entry,
                        ghost visited: set<State>, ghost s0: State, ghost open: set<Point>)
    returns (ghost pushed: seq<Entry>)
    requires open == OpenCells(grid)
    requires PushReady(found, heap, grid.Length0, grid.Length1, m, visited, s0, open)
    modifies found, heap, heap.arr
    ensures PushReady(found, heap, grid.Length0, grid.Length1, m, visited, s0, open)
    ensures heap.arr == old(heap.arr) || fresh(heap.arr)
    ensures multiset(heap.arr[..heap.len]) == multiset(old(heap.arr[..heap.len])) + multiset(pushed)
    ensures AllSound(pushed, grid.Length0, grid.Length1, s0, open)
    ensures pushed == [] || pushed == [Entry(m.key + MOVE_COST, Ahead(StateOf(m)).row, Ahead(StateOf(m)).col, m.dir, true)]
    ensures CellOfState(Ahead(StateOf(m))) in open && Ahead(StateOf(m)) !in visited ==> pushed != []
    ensures CellOfState(Ahead(StateOf(m))) !in open ==> pushed == [] && found[..] == old(found[..])
    ensures CellOfState(Ahead(StateOf(m))) in open ==>
      var i := Idx(Ahead(StateOf(m)).row, Ahead(StateOf(m)).col, grid.Length0, grid.Length1);
      found[..] == TieMarked(old(found[..]), i, m.dir, m.key + MOVE_COST) &&
      (old(found[i].scores[m.dir]) == m.key + MOVE_COST ==> pushed != [])
  {
    var rows, cols := grid.Length0, grid.Length1;
    var nextRow, nextCol, validPoint := NextPoint(m, rows, cols);
    pushed := [];
    if validPoint && grid[nextRow, nextCol] == '.' {
      pushed := ForwardOnto(found, heap, m, nextRow, nextCol, rows, cols, visited, s0, open);
    }
  }

  /** The forward push onto the open cell `(row, col)` ahead: a heading
    * not found, or found with this move's score, is queued again. */
  method ForwardOnto(found: array<FoundSquare>, heap: Heap, m: Entry, row: int, col: int, rows: int, cols: int,
                     ghost visited: set<State>, ghost s0: State, ghost open: set<Point>)
    returns (ghost pushed: seq<Entry>)
    requires PushReady(found, heap, rows, cols, m, visited, s0, open)
    requires State(row, col, m.dir) == Ahead(StateOf(m))
    requires InGrid(GridWalk.Point(row, col), rows, cols) && GridWalk.Point(row, col) in open
    modifies found, heap, heap.arr
    ensures PushReady(found, heap, rows, cols, m, visited, s0, open)
    ensures heap.arr == old(heap.arr) || fresh(heap.arr)
    ensures multiset(heap.arr[..heap.len]) == multiset(old(heap.arr[..heap.len])) + multiset(pushed)
    ensures AllSound(pushed, rows, cols, s0, open)
    ensures pushed == [] || pushed == [Entry(m.key + MOVE_COST, row, col, m.dir, true)]
    ensures State(row, col, m.dir) !in visited ==> pushed != []
    ensures found[..] == TieMarked(old(found[..]), Idx(row, col, rows, cols), m.dir, m.key + MOVE_COST)
    ensures old(found[..])[Idx(row, col, rows, cols)].scores[m.dir] == m.key + MOVE_COST ==> pushed != []
  {
    pushed := [];
    var foundScore := MarkTie(found, rows, cols, row, col, m.dir, m.key + MOVE_COST, visited);
    if foundScore == -1 || foundScore == m.key + MOVE_COST {
      ghost var marked := found[..];
      var e := Entry(m.key + MOVE_COST, row, col, m.dir, true);
      ForwardSound(m, e, rows, cols, s0, open);
      heap.Push(e);
      pushed := [e];
      assert found[..] == marked;
    }
  }

  /** The found map after the tie check of a forward move onto cell `i`
    * in heading `d`: a heading found with exactly `score` gets its parent
    * flag, anything else is left alone. */
  ghost function TieMarked(fs: seq<FoundSquare>, i: int, d: int, score: int): seq<FoundSquare>
    requires 0 <= i < |fs| && WellFormed(fs[i]) && 0 <= d < 4
  {
    if fs[i].scores[d] == score then fs[i := FoundSquare(fs[i].scores[d := score], fs[i].parents[d := true])]
    else fs
  }

  /** The found check of the forward push: a heading found with exactly
    * `score` also gets its parent flag, since the move ties with it. */
  method MarkTie(found: array<FoundSquare>, rows: int, cols: int, row: int, col: int, d: int, score: int,
                 ghost visited: set<State>) returns (foundScore: int)
    requires FoundMatches(found[..], rows, cols, visited)
    requires InGrid(GridWalk.Point(row, col), rows, cols) && 0 <= d < 4
    modifies found
    ensures FoundMatches(found[..], rows, cols, visited)
    ensures foundScore == old(found[..])[Idx(row, col, rows, cols)].scores[d]
    ensures found[..] == TieMarked(old(found[..]), Idx(row, col, rows, cols), d, score)
  {
    ghost var fs := found[..];
    assert WellFormed(found[Idx(row, col, rows, cols)]);
    foundScore := CheckIsFound(found, rows, cols, row, col, d);
    if foundScore == score {
      MarkFound(found, rows, cols, row, col, score, true, d);
      TieMarkKeeps(fs, found[..], rows, cols, row, col, d, score, visited);
    }
  }

  /** The tie mark rewrites a found heading with the score it already
    * has, so the found states stay the same. */
  lemma TieMarkKeeps(fs: seq<FoundSquare>, fs': seq<FoundSquare>, rows: int, cols: int, row: int, col: int,
                     d: int, score: int, visited: set<State>)
    requires FoundMatches(fs, rows, cols, visited) && 0 <= row < rows && 0 <= col < cols && 0 <= d < 4
    requires fs[Idx(row, col, rows, cols)].scores[d] == score
    requires fs' == fs[Idx(row, col, rows, cols) := FoundSquare(fs[Idx(row, col, rows, cols)].scores[d := score],
                                                                 fs[Idx(row, col, rows, cols)].parents[d := true])]
    ensures FoundMatches(fs', rows, cols, visited)
  {
    forall r, c, e | 0 <= r < rows && 0 <= c < cols && 0 <= e < 4
      ensures fs'[Idx(r, c, rows, cols)].scores[e] != -1 <==> State(r, c, e) in visited
    {
      IdxInjective(r, c, row, col, rows, cols);
    }
  }

  /** A turn push: the same cell in heading `nextDir`, if not found. */
  method PushTurnTie(grid: array2<char>, found: array<FoundSquare>, heap: Heap, m: Entry, nextDir: int,
                     ghost visited: set<State>, ghost s0: State, ghost open: set<Point>)
    returns (ghost pushed: seq<Entry>)
    requires PushReady(found, heap, grid.Length0, grid.Length1, m, visited, s0, open)
    requires nextDir == TurnLeft(m.dir) || nextDir == TurnRight(m.dir)
    modifies heap, heap.arr
    ensures PushReady(found, heap, grid.Length0, grid.Length1, m, visited, s0, open)
    ensures heap.arr == old(heap.arr) || fresh(heap.arr)
    ensures multiset(heap.arr[..heap.len]) == multiset(old(heap.arr[..heap.len])) + multiset(pushed)
    ensures AllSound(pushed, grid.Length0, grid.Length1, s0, open)
    ensures pushed == [] || pushed == [Entry(m.key + TURN_COST, m.row, m.col, nextDir, false)]
    ensures pushed != [] <==> State(m.row, m.col, nextDir) !in visited
  {
    assert WellFormed(found[Idx(m.row, m.col, grid.Length0, grid.Length1)]);
    if CheckIsFound(found, grid.Length0, grid.Length1, m.row, m.col, nextDir) == -1 {
      var e := Entry(m.key + TURN_COST, m.row, m.col, nextDir, false);
      TurnSound(m, e, grid.Length0, grid.Length1, s0, open);
      heap.Push(e);
      pushed := [e];
    } else {
      pushed := [];
    }
  }

  // ----- Collecting the squares of the best paths -----

  predicate NoDup(s: seq<Point>) {
    forall i, j :: 0 <= i < j < |s| ==> s[i] != s[j]
  }

  /** The `PointVec` the squares are collected in. */
  class PointVec {
    var items: seq<Point>

    constructor()
      ensures items == []
    {
      items := [];
    }

    /** `append_if_not_exists`: appends `point` only when it is absent, so
      * a duplicate-free vector stays duplicate-free. */
    method AppendIfNotExists(point: Point)
      modifies this
      ensures items == if point in old(items) then old(items) else old(items) + [point]
      ensures NoDup(old(items)) ==> NoDup(items)
    {
      var i := 0;
      while i < |items|
        invariant 0 <= i <= |items|
        invariant forall k :: 0 <= k < i ==> items[k] != point
      {
        if items[i].row == point.row && items[i].col == point.col {
          return;
        }
        i := i + 1;
      }
      items := items + [point];
    }
  }

  /** The cell behind `p` for a reindeer facing `d`: entering `p` facing
    * east means coming from the west, and so on. */
  function Behind(p: Point, d: int): (q: Point)
    requires 0 <= d < 4
    ensures Ahead(State(q.row, q.col, d)) == State(p.row, p.col, d)
  {
    if d == EAST then GridWalk.Point(p.row, p.col - 1)
    else if d == NORTH then GridWalk.Point(p.row + 1, p.col)
    else if d == WEST then GridWalk.Point(p.row, p.col + 1)
    else GridWalk.Point(p.row - 1, p.col)
  }

  /** The cells the loop of `make_min_paths` recurses into, as written:
    * `next_row` and `next_col` are declared once before the loop, so each
    * set flag from heading `d` on moves on from where the previous one
    * left them. */
  function RecursionTargetsAsWritten(p: Point, parents: seq<bool>, d: int): (cells: seq<Point>)
    requires |parents| == 4 && 0 <= d <= 4
    ensures |cells| <= 4 - d
    decreases 4 - d
  {
    if d == 4 then []
    else if parents[d] then [Behind(p, d)] + RecursionTargetsAsWritten(Behind(p, d), parents, d + 1)
    else RecursionTargetsAsWritten(p, parents, d + 1)
  }

  /** The cells it is meant to recurse into: the cell behind `p` for each
    * set flag from heading `d` on, none of them `p` itself. */
  function RecursionTargets(p: Point, parents: seq<bool>, d: int): (cells: seq<Point>)
    requires |parents| == 4 && 0 <= d <= 4
    ensures forall x :: x in cells <==> exists e :: d <= e < 4 && parents[e] && x == Behind(p, e)
    ensures p !in cells
    decreases 4 - d
  {
    if d == 4 then []
    else if parents[d] then [Behind(p, d)] + RecursionTargets(p, parents, d + 1)
    else RecursionTargets(p, parents, d + 1)
  }

  /** With the east and west flags set (and not north), the loop as
    * written steps back west and then east again, onto `p` itself, and so
    * recurses into the same square with the same table; the intended
    * targets are the two neighbours. */
  lemma AsWrittenRevisits(p: Point, parents: seq<bool>)
    requires |parents| == 4 && parents[EAST] && !parents[NORTH] && parents[WEST]
    ensures p in RecursionTargetsAsWritten(p, parents, 0)
    ensures p !in RecursionTargets(p, parents, 0)
    ensures Behind(p, WEST) in RecursionTargets(p, parents, 0) && Behind(p, WEST) != p
  {
    var q := Behind(p, EAST);
    assert RecursionTargetsAsWritten(q, parents, 1) == RecursionTargetsAsWritten(q, parents, 2);
    assert Behind(q, WEST) == p;
    assert RecursionTargetsAsWritten(p, parents, 0) == [q] + RecursionTargetsAsWritten(q, parents, 2);
    assert RecursionTargetsAsWritten(q, parents, 2) == [p] + RecursionTargetsAsWritten(p, parents, 3);
  }

  /** With the east and north flags set, the loop as written steps west
    * and then, from there, south: it recurses into the diagonal square,
    * which no flag of `p` names. */
  lemma AsWrittenDiagonal(p: Point, parents: seq<bool>)
    requires |parents| == 4 && parents[EAST] && parents[NORTH]
    ensures GridWalk.Point(p.row + 1, p.col - 1) in RecursionTargetsAsWritten(p, parents, 0)
    ensures GridWalk.Point(p.row + 1, p.col - 1) !in RecursionTargets(p, parents, 0)
  {
    var q := Behind(p, EAST);
    assert RecursionTargetsAsWritten(p, parents, 0) == [q] + RecursionTargetsAsWritten(q, parents, 1);
    assert RecursionTargetsAsWritten(q, parents, 1) == [Behind(q, NORTH)] + RecursionTargetsAsWritten(Behind(q, NORTH), parents, 2);
  }

  /** `y` is the cell behind `x` in a heading whose parent flag is set. */
  ghost predicate ParentLink(fs: seq<FoundSquare>, rows: int, cols: int, x: Point, y: Point) {
    InGrid(x, rows, cols) && |fs| == rows * cols && WellFormed(fs[Idx(x.row, x.col, rows, cols)]) &&
    exists d :: 0 <= d < 4 && fs[Idx(x.row, x.col, rows, cols)].parents[d] && y == Behind(x, d)
  }

  ghost predicate LinkAt(fs: seq<FoundSquare>, rows: int, cols: int, w: seq<Point>, i: int)
    requires 0 <= i < |w| - 1
  {
    ParentLink(fs, rows, cols, w[i], w[i + 1])
  }

  /** `y` is reached from `x` by following parent flags. */
  ghost predicate Linked(fs: seq<FoundSquare>, rows: int, cols: int, x: Point, y: Point) {
    exists w :: |w| >= 1 && w[0] == x && w[|w| - 1] == y && forall i :: 0 <= i < |w| - 1 ==> LinkAt(fs, rows, cols, w, i)
  }

  /** Every set closed under parent links that holds `x` holds all that
    * `x` links to. */
  lemma {:induction false} ClosedHoldsLinked(fs: seq<FoundSquare>, rows: int, cols: int, done: set<Point>,
                                             w: seq<Point>)
    requires |w| >= 1 && w[0] in done && forall i :: 0 <= i < |w| - 1 ==> LinkAt(fs, rows, cols, w, i)
    requires forall x, y :: x in done && ParentLink(fs, rows, cols, x, y) ==> y in done
    ensures w[|w| - 1] in done
    decreases |w|
  {
    if |w| > 1 {
      var w' := w[..|w| - 1];
      forall i | 0 <= i < |w'| - 1
        ensures LinkAt(fs, rows, cols, w', i)
      {
        assert LinkAt(fs, rows, cols, w, i);
      }
      ClosedHoldsLinked(fs, rows, cols, done, w');
      assert LinkAt(fs, rows, cols, w, |w| - 2);
    }
  }

  lemma LinkedSelf(fs: seq<FoundSquare>, rows: int, cols: int, x: Point)
    ensures Linked(fs, rows, cols, x, x)
  {
    assert [x][0] == x;
  }

  /** A link followed by a chain is a chain. */
  lemma LinkedPrepend(fs: seq<FoundSquare>, rows: int, cols: int, x: Point, y: Point, z: Point)
    requires ParentLink(fs, rows, cols, x, y) && Linked(fs, rows, cols, y, z)
    ensures Linked(fs, rows, cols, x, z)
  {
    var w :| |w| >= 1 && w[0] == y && w[|w| - 1] == z && forall i :: 0 <= i < |w| - 1 ==> LinkAt(fs, rows, cols, w, i);
    var w' := [x] + w;
    forall i | 0 <= i < |w'| - 1
      ensures LinkAt(fs, rows, cols, w', i)
    {
      if i == 0 {
        assert w'[0] == x && w'[1] == y;
      } else {
        assert w'[i] == w[i - 1] && w'[i + 1] == w[i];
        assert LinkAt(fs, rows, cols, w, i - 1);
      }
    }
    assert w'[0] == x && w'[|w'| - 1] == z;
  }

  /** `make_min_paths`, with the cell behind computed afresh for each
    * heading: adds the cell and, recursively, every cell its set parent
    * flags lead back to.  It fails when it would read outside the map or
    * runs out of `fuel` (the recursion does not look at headings and can
    * cycle).  `done` is the set of cells it walked from. */
  method MakeMinPaths(found: array<FoundSquare>, rows: int, cols: int, row: int, col: int,
                      pathSquares: PointVec, fuel: nat) returns (ok: bool, ghost done: set<Point>)
    requires found.Length == rows * cols && AllWellFormed(found[..])
    requires NoDup(pathSquares.items)
    modifies pathSquares
    ensures NoDup(pathSquares.items)
    ensures ok ==> GridWalk.Point(row, col) in done
    ensures ok ==> forall x, y :: x in done && ParentLink(found[..], rows, cols, x, y) ==> y in done
    ensures ok ==> forall y :: y in done ==> InGrid(y, rows, cols) && Linked(found[..], rows, cols, GridWalk.Point(row, col), y)
    ensures ok ==> forall y :: y in pathSquares.items <==> y in old(pathSquares.items) || y in done
    decreases fuel
  {
    var here := GridWalk.Point(row, col);
    if !(0 <= row < rows && 0 <= col < cols) || fuel == 0 {
      return false, {};
    }
    ghost var before := pathSquares.items;
    pathSquares.AppendIfNotExists(here);
    var foundSquare := found[Idx(row, col, rows, cols)];
    assert WellFormed(foundSquare);
    done := {here};
    ok := true;
    LinkedSelf(found[..], rows, cols, here);
    var i := EAST;
    while i <= SOUTH
      invariant EAST <= i <= SOUTH + 1
      invariant NoDup(pathSquares.items)
      invariant here in done
      invariant forall y :: y in done ==> InGrid(y, rows, cols) && Linked(found[..], rows, cols, here, y)
      invariant forall y :: y in pathSquares.items <==> y in before || y in done
      invariant forall d :: 0 <= d < i && foundSquare.parents[d] ==> Behind(here, d) in done
      invariant forall x, y :: x in done && x != here && ParentLink(found[..], rows, cols, x, y) ==> y in done
      decreases SOUTH + 1 - i
    {
      if foundSquare.parents[i] {
        var next := Behind(here, i);
        var subOk, subDone := MakeMinPaths(found, rows, cols, next.row, next.col, pathSquares, fuel - 1);
        if !subOk {
          return false, done;
        }
        assert ParentLink(found[..], rows, cols, here, next);
        forall y | y in subDone
          ensures Linked(found[..], rows, cols, here, y)
        {
          LinkedPrepend(found[..], rows, cols, here, next, y);
        }
        done := done + subDone;
      }
      i := i + 1;
    }
  }

  /** What `make_min_paths` collects from `(row, col)` into an empty
    * vector: exactly the cells the parent flags lead back to, once each. */
  lemma CollectedAreLinked(fs: seq<FoundSquare>, rows: int, cols: int, from: Point, done: set<Point>, items: seq<Point>)
    requires from in done
    requires forall x, y :: x in done && ParentLink(fs, rows, cols, x, y) ==> y in done
    requires forall y :: y in done ==> Linked(fs, rows, cols, from, y)
    requires forall y :: y in items <==> y in done
    ensures forall y :: y in items <==> Linked(fs, rows, cols, from, y)
  {
    forall y | Linked(fs, rows, cols, from, y)
      ensures y in done
    {
      var w :| |w| >= 1 && w[0] == from && w[|w| - 1] == y && forall i :: 0 <= i < |w| - 1 ==> LinkAt(fs, rows, cols, w, i);
      ClosedHoldsLinked(fs, rows, cols, done, w);
    }
  }

  /** What the first attempt reports: the best end score and the squares
    * of the best paths, which it marks 'O' on the map. */
  datatype TieOutcome = Marked(minScore: int, squares: seq<Point>) | SearchFailed(end: SearchEnd) | PathsFailed(minScore: int)

  /** `get_min_score_paths` of the first attempt: the search, then
    * `make_min_paths` from the end, then the squares collected marked 'O'.
    * `fs` is the found map the search left: one well-formed entry per
    * cell. */
  method GetMinScorePathsTies(grid: array2<char>, start: Point, end: Point, searchFuel: nat, pathFuel: nat)
    returns (outcome: TieOutcome, ghost fs: seq<FoundSquare>)
    requires InGrid(start, grid.Length0, grid.Length1)
    modifies grid
    ensures outcome.Marked? || outcome.PathsFailed? ==> MinScoreMeaning(end, start, outcome.minScore, old(OpenCells(grid)))
    ensures outcome.SearchFailed? && !outcome.end.Exhausted? ==>
      MinScoreMeaning(end, start, outcome.end.minScore, old(OpenCells(grid)))
    ensures |fs| == grid.Length0 * grid.Length1 && AllWellFormed(fs)
    ensures outcome.Marked? ==> NoDup(outcome.squares)
    ensures outcome.Marked? ==> forall p :: p in outcome.squares <==> Linked(fs, grid.Length0, grid.Length1, end, p)
    ensures outcome.Marked? ==> forall r, c :: 0 <= r < grid.Length0 && 0 <= c < grid.Length1 ==>
      grid[r, c] == if GridWalk.Point(r, c) in outcome.squares then 'O' else old(grid[r, c])
    ensures !outcome.Marked? ==> forall r, c :: 0 <= r < grid.Length0 && 0 <= c < grid.Length1 ==> grid[r, c] == old(grid[r, c])
  {
    var rows, cols := grid.Length0, grid.Length1;
    var found := NewFoundMap(rows * cols);
    var r := SearchTies(grid, found, start, end, searchFuel);
    fs := found[..];
    if !r.Finished? {
      return SearchFailed(r), fs;
    }
    var paths := new PointVec();
    var ok, done := MakeMinPaths(found, rows, cols, end.row, end.col, paths, pathFuel);
    if !ok {
      return PathsFailed(r.minScore), fs;
    }
    CollectedAreLinked(fs, rows, cols, end, done, paths.items);
    var squares := paths.items;
    assert forall p :: p in squares ==> p in done;
    MarkSquares(grid, squares);
    return Marked(r.minScore, squares), fs;
  }

  /** The final loop of `get_min_score_paths`: each collected square is
    * marked 'O', and every other cell is left as it was. */
  method MarkSquares(grid: array2<char>, squares: seq<Point>)
    requires forall p :: p in squares ==> InGrid(p, grid.Length0, grid.Length1)
    modifies grid
    ensures forall r, c :: 0 <= r < grid.Length0 && 0 <= c < grid.Length1 ==>
      grid[r, c] == if GridWalk.Point(r, c) in squares then 'O' else old(grid[r, c])
  {
    var i := 0;
    while i < |squares|
      invariant 0 <= i <= |squares|
      invariant forall r, c :: 0 <= r < grid.Length0 && 0 <= c < grid.Length1 ==>
        grid[r, c] == if GridWalk.Point(r, c) in squares[..i] then 'O' else old(grid[r, c])
    {
      var p := squares[i];
      assert p in squares;
      grid[p.row, p.col] := 'O';
      assert squares[..i + 1] == squares[..i] + [p];
      i := i + 1;
    }
    assert squares[..|squares|] == squares;
  }
}
