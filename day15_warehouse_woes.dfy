// Day 15, part 1: a robot walks a warehouse map one move at a time.  A move
// onto a box pushes the whole line of boxes ahead of it when the cell past
// the line is floor; a wall or the edge of the map stops the move.  After
// all the moves the answer is the sum of the GPS coordinates of the boxes.
// The map is a grid of characters, one C string per row; the robot is not
// drawn on it.

module WarehouseWoes {
  import opened Optional

  const BOX: char := 'O'
  const WALL: char := '#'
  const FLOOR: char := '.'
  const NUL: char := '\0'

  datatype Point = Point(row: int, col: int)

  /** The robot's position, updated through a pointer. */
  class Robot {
    var row: int
    var col: int

    constructor (p: Point)
      ensures At() == p
    {
      row, col := p.row, p.col;
    }

    function At(): Point
      reads this
    {
      Point(row, col)
    }
  }

  // ---- The map as a value ----

  function Width(g: seq<seq<char>>): int {
    if |g| == 0 then 0 else |g[0]|
  }

  /** All rows have the same length. */
  predicate Rect(g: seq<seq<char>>) {
    forall r :: 0 <= r < |g| ==> |g[r]| == Width(g)
  }

  predicate InMap(g: seq<seq<char>>, p: Point) {
    0 <= p.row < |g| && 0 <= p.col < Width(g)
  }

  function At(g: seq<seq<char>>, p: Point): char
    requires Rect(g) && InMap(g, p)
  {
    g[p.row][p.col]
  }

  /** The map with one cell rewritten; nothing else changes. */
  function Set(g: seq<seq<char>>, p: Point, x: char): (g': seq<seq<char>>)
    requires Rect(g) && InMap(g, p)
    ensures Rect(g') && |g'| == |g| && Width(g') == Width(g)
    ensures forall q :: InMap(g, q) ==> At(g', q) == if q == p then x else At(g, q)
  {
    g[p.row := g[p.row][p.col := x]]
  }

  /** The cells of the map that hold `ch`. */
  ghost function Cells(g: seq<seq<char>>, ch: char): set<Point> {
    set r, c | 0 <= r < |g| && 0 <= c < |g[r]| && g[r][c] == ch :: Point(r, c)
  }

  lemma CellsMeaning(g: seq<seq<char>>, ch: char)
    requires Rect(g)
    ensures forall q :: q in Cells(g, ch) <==> InMap(g, q) && At(g, q) == ch
  {
  }

  /** Rewriting one cell adds it to the cells of the new character and
    * takes it from those of every other. */
  lemma CellsAfterSet(g: seq<seq<char>>, p: Point, x: char, ch: char)
    requires Rect(g) && InMap(g, p)
    ensures Cells(Set(g, p, x), ch) == if x == ch then Cells(g, ch) + {p} else Cells(g, ch) - {p}
  {
    var g' := Set(g, p, x);
    CellsMeaning(g, ch);
    CellsMeaning(g', ch);
  }

  // ---- Moves ----

  /** The four move characters: right, up, left and down. */
  predicate IsMove(m: char) {
    m == '>' || m == '^' || m == '<' || m == 'v'
  }

  /** The cell `k` steps from `p` in the direction of `m`. */
  function Along(p: Point, m: char, k: int): Point {
    if m == '>' then Point(p.row, p.col + k)
    else if m == '^' then Point(p.row - k, p.col)
    else if m == '<' then Point(p.row, p.col - k)
    else Point(p.row + k, p.col)
  }

  lemma AlongShift(p: Point, m: char)
    ensures forall j :: Along(p, m, j) == Along(Along(p, m, 1), m, j - 1)
  {
  }

  /** The number of cells from `p` to the edge in the direction of `m`. */
  function Room(rows: int, cols: int, p: Point, m: char): int {
    if m == '>' then cols - p.col
    else if m == '^' then p.row + 1
    else if m == '<' then p.col + 1
    else rows - p.row
  }

  datatype Push = Stuck(k: nat) | Pushed(k: nat) | Strange(k: nat)

  /** Pushing the box at `p` in the direction of `m`.  `k` is the distance
    * to the first cell along the move that does not hold a box: the push
    * succeeds when that cell is floor, is stopped by a wall or the edge of
    * the map, and is an error for any other character. */
  function PushEnd(g: seq<seq<char>>, p: Point, m: char): (o: Push)
    requires Rect(g) && InMap(g, p) && IsMove(m)
    ensures o.k >= 1
    ensures forall j :: 0 < j < o.k ==> InMap(g, Along(p, m, j)) && At(g, Along(p, m, j)) == BOX
    ensures var e := Along(p, m, o.k);
      (InMap(g, e) ==> At(g, e) != BOX) &&
      (o.Pushed? <==> InMap(g, e) && At(g, e) == FLOOR) &&
      (o.Stuck? <==> !InMap(g, e) || At(g, e) == WALL)
    decreases Room(|g|, Width(g), p, m)
  {
    var d := Along(p, m, 1);
    if !InMap(g, d) then Stuck(1)
    else if At(g, d) == BOX then
      var o := PushEnd(g, d, m);
      AlongShift(p, m);
      o.(k := o.k + 1)
    else if At(g, d) == FLOOR then Pushed(1)
    else if At(g, d) == WALL then Stuck(1)
    else Strange(1)
  }

  // ---- The robot's moves ----

  datatype Warehouse = Warehouse(grid: seq<seq<char>>, robot: Point)

  predicate Valid(w: Warehouse) {
    Rect(w.grid) && InMap(w.grid, w.robot)
  }

  /** One round of the move loop of `get_gps_sum`; `None` when the function
    * gives up with -1 on an unknown move or an unexpected object. */
  function Step(w: Warehouse, m: char): (o: Option<Warehouse>)
    requires Valid(w)
    ensures o.Some? ==> Valid(o.value) && |o.value.grid| == |w.grid| && Width(o.value.grid) == Width(w.grid)
  {
    if !IsMove(m) then None
    else
      var d := Along(w.robot, m, 1);
      if !InMap(w.grid, d) then Some(w)
      else if At(w.grid, d) == BOX then
        match PushEnd(w.grid, d, m)
        case Pushed(k) => Some(Warehouse(Set(Set(w.grid, Along(d, m, k), BOX), d, FLOOR), d))
        case Stuck(_) => Some(w)
        case Strange(_) => None
      else if At(w.grid, d) == FLOOR then Some(Warehouse(w.grid, d))
      else if At(w.grid, d) == WALL then Some(w)
      else None
  }

  /** The robot stands on a cell that holds neither a box nor a wall. */
  predicate Clear(w: Warehouse)
    requires Valid(w)
  {
    At(w.grid, w.robot) != BOX && At(w.grid, w.robot) != WALL
  }

  /** Moving a box from `d` to the floor cell `e` keeps the walls and the
    * number of boxes. */
  lemma ShiftBox(g: seq<seq<char>>, d: Point, e: Point)
    requires Rect(g) && InMap(g, d) && InMap(g, e) && At(g, d) == BOX && At(g, e) == FLOOR
    ensures var g' := Set(Set(g, e, BOX), d, FLOOR);
      At(g', d) == FLOOR && Cells(g', WALL) == Cells(g, WALL) && |Cells(g', BOX)| == |Cells(g, BOX)|
  {
    var g1 := Set(g, e, BOX);
    CellsAfterSet(g, e, BOX, WALL);
    CellsAfterSet(g, e, BOX, BOX);
    CellsAfterSet(g1, d, FLOOR, WALL);
    CellsAfterSet(g1, d, FLOOR, BOX);
    var boxes := Cells(g, BOX);
    CellsMeaning(g, BOX);
    assert d in boxes && e !in boxes;
    assert (boxes + {e}) - {d} == (boxes - {d}) + {e};
  }

  /** A move keeps the walls where they are and the number of boxes, moves
    * the robot at most one cell, in the direction of the move, and never
    * onto a box or a wall. */
  lemma StepKeeps(w: Warehouse, m: char)
    requires Valid(w) && Clear(w) && Step(w, m).Some?
    ensures var w' := Step(w, m).value;
      Clear(w') &&
      Cells(w'.grid, WALL) == Cells(w.grid, WALL) &&
      |Cells(w'.grid, BOX)| == |Cells(w.grid, BOX)| &&
      (w'.robot == w.robot || w'.robot == Along(w.robot, m, 1))
  {
    var d := Along(w.robot, m, 1);
    if InMap(w.grid, d) && At(w.grid, d) == BOX && PushEnd(w.grid, d, m).Pushed? {
      ShiftBox(w.grid, d, Along(d, m, PushEnd(w.grid, d, m).k));
    }
  }

  datatype Outcome = Outcome(last: Warehouse, failed: bool)

  /** The move loop of `get_gps_sum` over a null-terminated list of moves:
    * the warehouse after the last move, or at the move where it gave up. */
  function Run(w: Warehouse, moves: seq<char>): (o: Outcome)
    requires Valid(w)
    ensures Valid(o.last) && |o.last.grid| == |w.grid| && Width(o.last.grid) == Width(w.grid)
    decreases |moves|
  {
    if |moves| == 0 || moves[0] == NUL then Outcome(w, false)
    else match Step(w, moves[0])
      case None => Outcome(w, true)
      case Some(w') => Run(w', moves[1..])
  }

  /** However many moves run, the walls stay, no box appears or vanishes,
    * and the robot never ends on a box or a wall. */
  lemma {:induction false} RunKeeps(w: Warehouse, moves: seq<char>)
    requires Valid(w) && Clear(w)
    ensures var o := Run(w, moves);
      Clear(o.last) &&
      Cells(o.last.grid, WALL) == Cells(w.grid, WALL) &&
      |Cells(o.last.grid, BOX)| == |Cells(w.grid, BOX)|
    decreases |moves|
  {
    if |moves| == 0 || moves[0] == NUL {
    } else if Step(w, moves[0]).Some? {
      StepKeeps(w, moves[0]);
      RunKeeps(Step(w, moves[0]).value, moves[1..]);
    }
  }

  // ---- GPS coordinates ----

  /** `get_gps`: a hundred times the distance from the top edge plus the
    * distance from the left edge. */
  function Gps(row: int, col: int): int {
    100 * row + col
  }

  /** On a map less than a hundred columns wide a GPS coordinate gives back
    * the row and the column. */
  lemma GpsDecodes(row: int, col: int)
    requires 0 <= col < 100
    ensures Gps(row, col) / 100 == row && Gps(row, col) % 100 == col
  {
  }

  /** The GPS coordinates of the boxes among the first `n` cells of row
    * `r`. */
  function RowGps(line: seq<char>, r: int, n: nat): int
    requires n <= |line|
  {
    if n == 0 then 0
    else RowGps(line, r, n - 1) + (if line[n - 1] == BOX then Gps(r, n - 1) else 0)
  }

  /** The GPS coordinates of the boxes in the first `n` rows. */
  function GridGps(g: seq<seq<char>>, n: nat): int
    requires n <= |g|
  {
    if n == 0 then 0
    else GridGps(g, n - 1) + RowGps(g[n - 1], n - 1, |g[n - 1]|)
  }

  /** What a cell adds to the sum. */
  function CellGps(ch: char, p: Point): int {
    if ch == BOX then Gps(p.row, p.col) else 0
  }

  lemma {:induction false} RowGpsSet(line: seq<char>, r: int, n: nat, c: int, x: char)
    requires n <= |line| && 0 <= c < |line|
    ensures RowGps(line[c := x], r, n) ==
      RowGps(line, r, n) + if c < n then CellGps(x, Point(r, c)) - CellGps(line[c], Point(r, c)) else 0
  {
    if n > 0 {
      RowGpsSet(line, r, n - 1, c, x);
    }
  }

  lemma {:induction false} GridGpsSet(g: seq<seq<char>>, n: nat, p: Point, x: char)
    requires Rect(g) && InMap(g, p) && n <= |g|
    ensures GridGps(Set(g, p, x), n) ==
      GridGps(g, n) + if p.row < n then CellGps(x, p) - CellGps(At(g, p), p) else 0
  {
    if n > 0 {
      GridGpsSet(g, n - 1, p, x);
      var g' := Set(g, p, x);
      if n - 1 == p.row {
        RowGpsSet(g[p.row], p.row, |g[p.row]|, p.col, x);
      } else {
        assert g'[n - 1] == g[n - 1];
      }
    }
  }

  /** The GPS shift of one cell in the direction of a move. */
  function Shift(m: char): int {
    if m == '>' then 1 else if m == '^' then -100 else if m == '<' then -1 else 100
  }

  /** A move that pushes a line of `k` boxes one cell on shifts the GPS sum
    * by `k` times the shift of one cell; any other move keeps it. */
  lemma StepGps(w: Warehouse, m: char)
    requires Valid(w) && Step(w, m).Some?
    ensures var d := Along(w.robot, m, 1);
      var w' := Step(w, m).value;
      var pushed := if IsMove(m) && InMap(w.grid, d) && At(w.grid, d) == BOX && PushEnd(w.grid, d, m).Pushed?
        then PushEnd(w.grid, d, m).k else 0;
      GridGps(w'.grid, |w'.grid|) == GridGps(w.grid, |w.grid|) + pushed * Shift(m)
  {
    var d := Along(w.robot, m, 1);
    if InMap(w.grid, d) && At(w.grid, d) == BOX && PushEnd(w.grid, d, m).Pushed? {
      var k := PushEnd(w.grid, d, m).k;
      var e := Along(d, m, k);
      var g1 := Set(w.grid, e, BOX);
      GridGpsSet(w.grid, |w.grid|, e, BOX);
      GridGpsSet(g1, |g1|, d, FLOOR);
      assert Gps(e.row, e.col) - Gps(d.row, d.col) == k * Shift(m) by {
        if m == '>' {
        } else if m == '^' {
        } else if m == '<' {
        } else {
        }
      }
    }
  }

  // ---- The map in memory ----

  /** Each row is a C string whose terminator sits just past the last
    * column: no cell holds one. */
  predicate NoNul(grid: array2<char>)
    reads grid
  {
    forall r, c :: 0 <= r < grid.Length0 && 0 <= c < grid.Length1 ==> grid[r, c] != NUL
  }

  ghost function Snap(grid: array2<char>): (g: seq<seq<char>>)
    reads grid
    ensures Rect(g) && |g| == grid.Length0 && (|g| > 0 ==> Width(g) == grid.Length1)
    ensures forall r, c :: 0 <= r < grid.Length0 && 0 <= c < grid.Length1 ==> g[r][c] == grid[r, c]
  {
    seq(grid.Length0, r requires 0 <= r < grid.Length0 reads grid =>
      seq(grid.Length1, c requires 0 <= c < grid.Length1 reads grid => grid[r, c]))
  }

  /** Two maps of the same shape that agree on every cell are equal. */
  lemma SameGrid(a: seq<seq<char>>, b: seq<seq<char>>)
    requires Rect(a) && Rect(b) && |a| == |b| && Width(a) == Width(b)
    requires forall p :: InMap(a, p) ==> At(a, p) == At(b, p)
    ensures a == b
  {
    forall r | 0 <= r < |a|
      ensures a[r] == b[r]
    {
      forall c | 0 <= c < |a[r]|
        ensures a[r][c] == b[r][c]
      {
        assert At(a, Point(r, c)) == At(b, Point(r, c));
      }
    }
  }

  /** Writes one cell of the map. */
  method WriteCell(grid: array2<char>, p: Point, x: char)
    requires 0 <= p.row < grid.Length0 && 0 <= p.col < grid.Length1
    requires NoNul(grid) && x != NUL
    modifies grid
    ensures NoNul(grid) && Snap(grid) == Set(old(Snap(grid)), p, x)
  {
    ghost var g := Snap(grid);
    grid[p.row, p.col] := x;
    SameGrid(Snap(grid), Set(g, p, x));
  }

  datatype Target = Unknown | Edge | Onto(p: Point)

  /** The direction switch of `try_move` and of the move loop of
    * `get_gps_sum`: where a step from `at` goes, `Edge` when that is off the map, `Unknown`
    * for a character that is no move. */
  method FindDestination(grid: array2<char>, at: Point, move: char) returns (t: Target)
    requires NoNul(grid) && 0 <= at.row < grid.Length0 && 0 <= at.col < grid.Length1
    ensures t.Unknown? <==> !IsMove(move)
    ensures t.Edge? <==> IsMove(move) && !InMap(Snap(grid), Along(at, move, 1))
    ensures t.Onto? ==> t.p == Along(at, move, 1) && InMap(Snap(grid), t.p)
  {
    if move == '>' {
      // `map[row][col + 1]` is the terminator once past the last column
      if at.col + 1 >= grid.Length1 || grid[at.row, at.col + 1] == NUL {
        return Edge;
      }
      t := Onto(Point(at.row, at.col + 1));
    } else if move == '^' {
      if at.row - 1 < 0 {
        return Edge;
      }
      t := Onto(Point(at.row - 1, at.col));
    } else if move == '<' {
      if at.col - 1 < 0 {
        return Edge;
      }
      t := Onto(Point(at.row, at.col - 1));
    } else if move == 'v' {
      if at.row + 1 >= grid.Length0 {
        return Edge;
      }
      t := Onto(Point(at.row + 1, at.col));
    } else {
      t := Unknown;
    }
  }

  /** `try_move`: push the box at (`row`, `col`) in `direction`, along the
    * line of boxes behind it, writing a box on the floor cell past the
    * line.  1 for a push, 0 for a wall or the edge, -1 for an unknown
    * direction or an unexpected object; the map changes only on a push. */
  method TryMove(grid: array2<char>, row: int, col: int, direction: char) returns (r: int)
    requires 0 <= row < grid.Length0 && 0 <= col < grid.Length1 && NoNul(grid)
    modifies grid
    ensures NoNul(grid)
    ensures var g := old(Snap(grid));
      var p := Point(row, col);
      if !IsMove(direction) then r == -1 && Snap(grid) == g
      else match PushEnd(g, p, direction)
        case Pushed(k) => r == 1 && Snap(grid) == Set(g, Along(p, direction, k), BOX)
        case Stuck(_) => r == 0 && Snap(grid) == g
        case Strange(_) => r == -1 && Snap(grid) == g
    decreases Room(grid.Length0, grid.Length1, Point(row, col), direction)
  {
    var t := FindDestination(grid, Point(row, col), direction);
    if t.Unknown? {
      return -1;
    } else if t.Edge? {
      return 0;
    }
    var dest := t.p;
    ghost var g := Snap(grid);
    var item := grid[dest.row, dest.col];
    if item == BOX {
      AlongShift(Point(row, col), direction);
      r := TryMove(grid, dest.row, dest.col, direction);
    } else if item == FLOOR {
      WriteCell(grid, dest, BOX);
      r := 1;
    } else if item == WALL {
      r := 0;
    } else {
      r := -1;
    }
  }

  /** One round of the move loop of `get_gps_sum`: find where the robot
    * wants to go, skip the move at the edge, and act on what is there.
    * False when the function gives up with -1. */
  method MoveRobot(grid: array2<char>, robot: Robot, move: char) returns (ok: bool)
    requires NoNul(grid) && 0 <= robot.row < grid.Length0 && 0 <= robot.col < grid.Length1
    modifies grid, robot
    ensures NoNul(grid) && 0 <= robot.row < grid.Length0 && 0 <= robot.col < grid.Length1
    ensures var s := Step(Warehouse(old(Snap(grid)), old(robot.At())), move);
      ok == s.Some? &&
      if s.Some? then Snap(grid) == s.value.grid && robot.At() == s.value.robot
      else Snap(grid) == old(Snap(grid)) && robot.At() == old(robot.At())
  {
    ghost var g := Snap(grid);
    var t := FindDestination(grid, robot.At(), move);
    if t.Unknown? {
      return false;
    } else if t.Edge? {
      return true;
    }
    var dest := t.p;
    var item := grid[dest.row, dest.col];
    assert item == At(g, dest);
    if item == BOX {
      var moved := TryMove(grid, dest.row, dest.col, move);
      if moved == -1 {
        return false;
      }
      if moved == 1 {
        WriteCell(grid, dest, FLOOR);
        robot.row, robot.col := dest.row, dest.col;
      }
      ok := true;
    } else if item == FLOOR {
      robot.row, robot.col := dest.row, dest.col;
      ok := true;
    } else if item == WALL {
      ok := true;
    } else {
      ok := false;
    }
  }

  /** The final loops of `get_gps_sum`: the GPS coordinates of the boxes,
    * row by row along each string. */
  method BoxGpsSum(grid: array2<char>) returns (sum: int)
    requires NoNul(grid)
    ensures sum == GridGps(Snap(grid), grid.Length0)
  {
    ghost var g := Snap(grid);
    sum := 0;
    var i := 0;
    while i < grid.Length0
      invariant 0 <= i <= grid.Length0
      invariant sum == GridGps(g, i)
    {
      var j := 0;
      while j < grid.Length1 && grid[i, j] != NUL
        invariant 0 <= j <= grid.Length1
        invariant sum == GridGps(g, i) + RowGps(g[i], i, j)
      {
        if grid[i, j] == BOX {
          sum := sum + Gps(i, j);
        }
        j := j + 1;
      }
      i := i + 1;
    }
  }

  /** `get_gps_sum`: run the null-terminated `moves`, leaving the map and
    * the robot as the moves leave them, then sum the boxes' GPS
    * coordinates; -1 when a move gives up. */
  method GetGpsSum(grid: array2<char>, moves: seq<char>, robot: Robot) returns (gpsSum: int)
    requires NoNul(grid) && 0 <= robot.row < grid.Length0 && 0 <= robot.col < grid.Length1
    modifies grid, robot
    ensures var o := Run(Warehouse(old(Snap(grid)), old(robot.At())), moves);
      Snap(grid) == o.last.grid && robot.At() == o.last.robot &&
      gpsSum == if o.failed then -1 else GridGps(o.last.grid, |o.last.grid|)
  {
    ghost var outcome := Run(Warehouse(Snap(grid), robot.At()), moves);
    var i := 0;
    while i < |moves| && moves[i] != NUL
      invariant 0 <= i <= |moves|
      invariant NoNul(grid) && 0 <= robot.row < grid.Length0 && 0 <= robot.col < grid.Length1
      invariant Run(Warehouse(Snap(grid), robot.At()), moves[i..]) == outcome
    {
      assert moves[i..][0] == moves[i] && moves[i..][1..] == moves[i + 1..];
      var ok := MoveRobot(grid, robot, moves[i]);
      if !ok {
        return -1;
      }
      i := i + 1;
    }
    gpsSum := BoxGpsSum(grid);
  }

  // ---- The caller's test of `try_move` as written ----

  /** The move as written: the caller tests `try_move`'s result for
    * nonzero, so its -1 for an unexpected object past the boxes counts as
    * a push, and the first box is cleared with nothing written in its
    * place. */
  function StepAsWritten(w: Warehouse, m: char): Option<Warehouse>
    requires Valid(w)
  {
    var d := Along(w.robot, m, 1);
    if IsMove(m) && InMap(w.grid, d) && At(w.grid, d) == BOX && PushEnd(w.grid, d, m).Strange? then
      Some(Warehouse(Set(w.grid, d, FLOOR), d))
    else Step(w, m)
  }

  /** Wherever the two differ, the move as written loses a box where the
    * corrected move gives up. */
  lemma AsWrittenLosesBox(w: Warehouse, m: char)
    requires Valid(w) && StepAsWritten(w, m) != Step(w, m)
    ensures Step(w, m).None? && StepAsWritten(w, m).Some?
    ensures |Cells(StepAsWritten(w, m).value.grid, BOX)| == |Cells(w.grid, BOX)| - 1
  {
    var d := Along(w.robot, m, 1);
    CellsAfterSet(w.grid, d, FLOOR, BOX);
    CellsMeaning(w.grid, BOX);
  }

  /** A one-row map `.Ox` with the robot on the left and the move `>`: the
    * box meets the unexpected `x`; the move as written erases the box and
    * walks on, the corrected one gives up. */
  lemma LostBoxExample()
    ensures var w := Warehouse([".Ox"], Point(0, 0));
      Step(w, '>') == None &&
      StepAsWritten(w, '>') == Some(Warehouse(["..x"], Point(0, 1))) &&
      |Cells(w.grid, BOX)| == 1 && Cells(["..x"], BOX) == {}
  {
    var w := Warehouse([".Ox"], Point(0, 0));
    assert PushEnd(w.grid, Point(0, 1), '>') == Strange(1);
    CellsMeaning(w.grid, BOX);
    CellsMeaning(["..x"], BOX);
    assert Cells(w.grid, BOX) == {Point(0, 1)};
    assert Along(w.robot, '>', 1) == Point(0, 1);
    assert ".Ox"[1 := FLOOR] == "..x";
    assert Set(w.grid, Point(0, 1), FLOOR) == [".Ox"[1 := FLOOR]];
  }
}
