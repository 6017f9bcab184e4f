// Day 6, part 2: the guard walks the map, turning right at each obstacle,
// and the solver counts the obstacle positions that trap the guard in a
// loop.  The map is a grid of bytes that the walks mark in place: with 'X'
// for a visited tile, or with a bitmask of the headings the guard stood in
// on a tile (the low nibble, which no printable character leaves clear).

module GuardGallivant {
  import opened FlatGrid
  import opened Optional

  const UP: int := 0
  const RIGHT: int := 1
  const DOWN: int := 2
  const LEFT: int := 3

  const NUL: bv8 := 0x00       // '\0', the string terminator
  const OBSTACLE: bv8 := 0x23  // '#'
  const VISITED: bv8 := 0x58   // 'X'


  datatype Position = Position(row: int, col: int)

  /** The value of a `Guard` struct, as it is passed by copy. */
  datatype Pose = Pose(row: int, col: int, dir: int)

  /** A guard updated through a pointer. */
  class Guard {
    var row: int
    var col: int
    var dir: int

    constructor (p: Pose)
      ensures Value() == p
    {
      row, col, dir := p.row, p.col, p.dir;
    }

    function Value(): Pose
      reads this
    {
      Pose(row, col, dir)
    }
  }

  function Cell(p: Pose): Position {
    Position(p.row, p.col)
  }

  predicate OnMap(p: Pose, rows: int, cols: int) {
    0 <= p.row < rows && 0 <= p.col < cols
  }

  predicate Heading(p: Pose) {
    0 <= p.dir < 4
  }

  /** `rotate_right`: the next heading clockwise. */
  function RotateRight(d: int): (r: int)
    ensures 0 <= r < 4
  {
    (d + 1) % 4
  }

  /** Turning right runs through up, right, down and left, and back. */
  lemma RotationCycle(d: int)
    requires 0 <= d < 4
    ensures RotateRight(UP) == RIGHT && RotateRight(RIGHT) == DOWN
    ensures RotateRight(DOWN) == LEFT && RotateRight(LEFT) == UP
    ensures RotateRight(RotateRight(RotateRight(RotateRight(d)))) == d
    ensures RotateRight(d) != d && RotateRight(RotateRight(d)) != d
    ensures RotateRight(RotateRight(RotateRight(d))) != d
  {
  }

  function Rotated(p: Pose): Pose {
    p.(dir := RotateRight(p.dir))
  }

  /** The guard after `k` right turns on the spot. */
  function Turned(p: Pose, k: nat): (q: Pose)
    ensures Cell(q) == Cell(p)
  {
    if k == 0 then p else Rotated(Turned(p, k - 1))
  }

  lemma TurnedHeading(p: Pose, k: nat)
    requires Heading(p)
    ensures Heading(Turned(p, k))
  {
  }

  /** Four right turns face the guard the way it started. */
  lemma {:induction false} TurnedFour(p: Pose)
    requires Heading(p)
    ensures Turned(p, 4) == p
  {
    assert Turned(p, 1) == Rotated(p);
    assert Turned(p, 2) == Rotated(Rotated(p));
    assert Turned(p, 3) == Rotated(Rotated(Rotated(p)));
    assert Turned(p, 4) == Rotated(Rotated(Rotated(Rotated(p))));
    RotationCycle(p.dir);
  }

  lemma {:induction false} TurnedShift(p: Pose, j: nat)
    ensures Turned(Rotated(p), j) == Turned(p, j + 1)
  {
    if j > 0 {
      TurnedShift(p, j - 1);
    }
  }

  /** The tile one step ahead: up is the previous row, right the next
    * column, down the next row and anything else the previous column. */
  function Ahead(p: Pose): Pose {
    if p.dir == UP then p.(row := p.row - 1)
    else if p.dir == RIGHT then p.(col := p.col + 1)
    else if p.dir == DOWN then p.(row := p.row + 1)
    else p.(col := p.col - 1)
  }

  /** `peek_guard`: the byte the guard faces.  Looking right past the last
    * column reads the row's string terminator. */
  function PeekGuard(p: Pose, grid: array2<bv8>): (c: bv8)
    requires OnMap(p, grid.Length0, grid.Length1)
    reads grid
    ensures OnMap(Ahead(p), grid.Length0, grid.Length1) ==> c == grid[Ahead(p).row, Ahead(p).col]
    ensures !OnMap(Ahead(p), grid.Length0, grid.Length1) ==> c == NUL
  {
    if p.dir == UP then
      if p.row < 1 then NUL else grid[p.row - 1, p.col]
    else if p.dir == RIGHT then
      if p.col + 1 >= grid.Length1 then NUL else grid[p.row, p.col + 1]
    else if p.dir == DOWN then
      if p.row + 1 >= grid.Length0 then NUL else grid[p.row + 1, p.col]
    else
      if p.col < 1 then NUL else grid[p.row, p.col - 1]
  }

  /** Each row is a C string, so no tile holds the terminator. */
  predicate NoNul(grid: array2<bv8>)
    reads grid
  {
    forall r, c :: 0 <= r < grid.Length0 && 0 <= c < grid.Length1 ==> grid[r, c] != NUL
  }

  /** Every tile holds a printable character: none has its high nibble
    * clear. */
  predicate Printable(grid: array2<bv8>)
    reads grid
  {
    forall r, c :: 0 <= r < grid.Length0 && 0 <= c < grid.Length1 ==> grid[r, c] & 0xf0 != 0
  }

  /** `obs` is exactly the set of obstacle tiles of `map`. */
  predicate ObstaclesAre(grid: array2<bv8>, obs: set<Position>)
    reads grid
  {
    forall r, c :: 0 <= r < grid.Length0 && 0 <= c < grid.Length1 ==>
      (grid[r, c] == OBSTACLE <==> Position(r, c) in obs)
  }

  ghost function Obstacles(grid: array2<bv8>): (obs: set<Position>)
    reads grid
    ensures ObstaclesAre(grid, obs)
    ensures forall x :: x in obs ==> 0 <= x.row < grid.Length0 && 0 <= x.col < grid.Length1
  {
    set r, c | 0 <= r < grid.Length0 && 0 <= c < grid.Length1 && grid[r, c] == OBSTACLE :: Position(r, c)
  }

  /** The tile ahead of the guard is an obstacle. */
  predicate Blocked(obs: set<Position>, rows: int, cols: int, p: Pose) {
    OnMap(Ahead(p), rows, cols) && Cell(Ahead(p)) in obs
  }

  /** The guard sees an obstacle exactly when the tile ahead is one, and,
    * on a map of C strings, sees the terminator exactly when the tile
    * ahead is off the map. */
  lemma PeekMeaning(p: Pose, grid: array2<bv8>, obs: set<Position>)
    requires OnMap(p, grid.Length0, grid.Length1) && ObstaclesAre(grid, obs)
    ensures PeekGuard(p, grid) == OBSTACLE <==> Blocked(obs, grid.Length0, grid.Length1, p)
    ensures NoNul(grid) ==> (PeekGuard(p, grid) == NUL <==> !OnMap(Ahead(p), grid.Length0, grid.Length1))
  {
  }

  /** How many right turns, from the `k`th on, the guard makes before it
    * faces a tile that is not an obstacle; 4 when all four are. */
  function FreeTurns(obs: set<Position>, rows: int, cols: int, p: Pose, k: nat): (t: nat)
    requires k <= 4
    ensures k <= t <= 4
    ensures forall j :: k <= j < t ==> Blocked(obs, rows, cols, Turned(p, j))
    ensures t < 4 ==> !Blocked(obs, rows, cols, Turned(p, t))
    decreases 4 - k
  {
    if k == 4 then 4
    else if !Blocked(obs, rows, cols, Turned(p, k)) then k
    else FreeTurns(obs, rows, cols, p, k + 1)
  }

  /** The guard has an obstacle on all four sides. */
  predicate Boxed(obs: set<Position>, rows: int, cols: int, p: Pose) {
    FreeTurns(obs, rows, cols, p, 0) == 4
  }

  /** One move of the guard: turn right until the tile ahead is clear,
    * then step onto it; `None` when the step would leave the map, or when
    * every heading is blocked. */
  function Next(obs: set<Position>, rows: int, cols: int, p: Pose): (n: Option<Pose>)
    ensures n.Some? ==> OnMap(n.value, rows, cols) && Cell(n.value) !in obs
    ensures n.Some? && Heading(p) ==> Heading(n.value)
  {
    var t := FreeTurns(obs, rows, cols, p, 0);
    if t == 4 then None
    else
      var q := Turned(p, t);
      TurnedHeadingUpTo(p, t);
      if OnMap(Ahead(q), rows, cols) then Some(Ahead(q)) else None
  }

  lemma TurnedHeadingUpTo(p: Pose, k: nat)
    ensures Heading(p) ==> Heading(Turned(p, k))
  {
    if Heading(p) {
      TurnedHeading(p, k);
    }
  }

  /** The guard facing a clear tile steps onto it, or leaves the map. */
  lemma NextClear(obs: set<Position>, rows: int, cols: int, p: Pose)
    requires !Blocked(obs, rows, cols, p)
    ensures Next(obs, rows, cols, p) == if OnMap(Ahead(p), rows, cols) then Some(Ahead(p)) else None
  {
  }

  /** At an obstacle the guard turns right and moves on as from the turned
    * pose, without stepping. */
  lemma NextAtObstacle(obs: set<Position>, rows: int, cols: int, p: Pose)
    requires Heading(p) && Blocked(obs, rows, cols, p)
    ensures Next(obs, rows, cols, p) == Next(obs, rows, cols, Rotated(p))
  {
    FreeTurnsRotated(obs, rows, cols, p);
    var t := FreeTurns(obs, rows, cols, p, 0);
    assert t < 4 ==> Turned(Rotated(p), t - 1) == Turned(p, t) by {
      if t < 4 {
        TurnedShift(p, t - 1);
      }
    }
  }

  /** A count of turns is the one `FreeTurns` finds when every turn before
    * it faces an obstacle and, short of four, it does not. */
  lemma FreeTurnsUnique(obs: set<Position>, rows: int, cols: int, p: Pose, u: nat)
    requires u <= 4
    requires forall j :: 0 <= j < u ==> Blocked(obs, rows, cols, Turned(p, j))
    requires u < 4 ==> !Blocked(obs, rows, cols, Turned(p, u))
    ensures FreeTurns(obs, rows, cols, p, 0) == u
  {
  }

  /** Facing an obstacle, the guard needs one turn fewer after turning
    * once; boxed in, it stays boxed in. */
  lemma FreeTurnsRotated(obs: set<Position>, rows: int, cols: int, p: Pose)
    requires Heading(p) && Blocked(obs, rows, cols, p)
    ensures var t := FreeTurns(obs, rows, cols, p, 0);
      FreeTurns(obs, rows, cols, Rotated(p), 0) == if t == 4 then 4 else t - 1
  {
    var t := FreeTurns(obs, rows, cols, p, 0);
    forall j | 0 <= j < 4
      ensures Turned(Rotated(p), j) == Turned(p, j + 1)
    {
      TurnedShift(p, j);
    }
    TurnedFour(p);
    FreeTurnsUnique(obs, rows, cols, Rotated(p), if t == 4 then 4 else t - 1);
  }

  /** The moves of the guard as a function of its pose. */
  function GuardStep(obs: set<Position>, rows: int, cols: int): Pose -> Option<Pose> {
    p => Next(obs, rows, cols, p)
  }

  /** The pose after `n` moves from `p0`; `None` once the walk has ended. */
  function Walk(step: Pose -> Option<Pose>, p0: Pose, n: nat): Option<Pose> {
    if n == 0 then Some(p0)
    else
      var w := Walk(step, p0, n - 1);
      if w.None? then None else step(w.value)
  }

  lemma WalkStep(step: Pose -> Option<Pose>, p0: Pose, n: nat)
    ensures var w := Walk(step, p0, n);
      Walk(step, p0, n + 1) == if w.None? then None else step(w.value)
  {
  }

  lemma GuardWalkStep(obs: set<Position>, rows: int, cols: int, p0: Pose, n: nat)
    ensures var w := Walk(GuardStep(obs, rows, cols), p0, n);
      Walk(GuardStep(obs, rows, cols), p0, n + 1) == if w.None? then None else Next(obs, rows, cols, w.value)
  {
    WalkStep(GuardStep(obs, rows, cols), p0, n);
  }

  /** The guard's walk stays on the map, keeps a heading and never stands
    * on an obstacle after its first move. */
  lemma {:induction false} GuardWalkOnMap(obs: set<Position>, rows: int, cols: int, p0: Pose, n: nat)
    requires OnMap(p0, rows, cols) && Heading(p0)
    ensures var w := Walk(GuardStep(obs, rows, cols), p0, n);
      w.Some? ==> OnMap(w.value, rows, cols) && Heading(w.value)
  {
    if n > 0 {
      GuardWalkOnMap(obs, rows, cols, p0, n - 1);
      WalkStep(GuardStep(obs, rows, cols), p0, n - 1);
    }
  }

  lemma SameStep(step: Pose -> Option<Pose>, p0: Pose, a: nat, b: nat)
    requires Walk(step, p0, a) == Walk(step, p0, b)
    ensures Walk(step, p0, a + 1) == Walk(step, p0, b + 1)
  {
    WalkStep(step, p0, a);
    WalkStep(step, p0, b);
  }

  /** A walk that has ended stays ended. */
  lemma {:induction false} WalkEnded(step: Pose -> Option<Pose>, p0: Pose, m: nat, n: nat)
    requires m <= n && Walk(step, p0, m).None?
    ensures Walk(step, p0, n).None?
    decreases n - m
  {
    if m < n {
      WalkEnded(step, p0, m, n - 1);
      WalkStep(step, p0, n - 1);
    }
  }

  /** Two moments at the same pose have the same future. */
  lemma {:induction false} SameFuture(step: Pose -> Option<Pose>, p0: Pose, i: nat, j: nat, k: nat)
    requires Walk(step, p0, i) == Walk(step, p0, j)
    ensures Walk(step, p0, i + k) == Walk(step, p0, j + k)
  {
    if k > 0 {
      SameFuture(step, p0, i, j, k - 1);
      SameStep(step, p0, i + (k - 1), j + (k - 1));
    }
  }

  /** A walk that comes back to an earlier pose never ends. */
  lemma {:induction false} LoopsForever(step: Pose -> Option<Pose>, p0: Pose, i: nat, j: nat, n: nat)
    requires i < j && Walk(step, p0, j).Some?
    requires Walk(step, p0, i) == Walk(step, p0, j)
    ensures Walk(step, p0, n).Some?
    decreases n
  {
    if n <= j {
      if Walk(step, p0, n).None? {
        WalkEnded(step, p0, n, j);
      }
    } else {
      SameFuture(step, p0, i, j, n - j);
      LoopsForever(step, p0, i, j, i + (n - j));
    }
  }

  /** The poses of the walk up to move `n`. */
  ghost function Seen(step: Pose -> Option<Pose>, p0: Pose, n: nat): set<Pose> {
    if n == 0 then {p0}
    else
      var w := Walk(step, p0, n);
      Seen(step, p0, n - 1) + if w.Some? then {w.value} else {}
  }

  lemma {:induction false} SeenMeaning(step: Pose -> Option<Pose>, p0: Pose, n: nat, q: Pose)
    requires q in Seen(step, p0, n)
    ensures exists j :: 0 <= j <= n && Walk(step, p0, j) == Some(q)
  {
    if n > 0 {
      if q in Seen(step, p0, n - 1) {
        SeenMeaning(step, p0, n - 1, q);
      } else {
        assert Walk(step, p0, n) == Some(q);
      }
    } else {
      assert Walk(step, p0, 0) == Some(q);
    }
  }

  // ---- Part 1: marking visited tiles with 'X' ----

  /** The tiles marked 'X' after `n` moves: those marked to begin with, the
    * start, and every tile the walk steps onto. */
  ghost function VisitedCells(step: Pose -> Option<Pose>, p0: Pose, marked0: set<Position>, n: nat): (v: set<Position>)
    ensures marked0 + {Cell(p0)} <= v
  {
    if n == 0 then marked0 + {Cell(p0)}
    else
      var w := Walk(step, p0, n);
      VisitedCells(step, p0, marked0, n - 1) + if w.Some? then {Cell(w.value)} else {}
  }

  /** The tiles the walk steps onto for the first time, in order. */
  ghost function NewTiles(step: Pose -> Option<Pose>, p0: Pose, marked0: set<Position>, n: nat): seq<Position> {
    if n == 0 then []
    else
      var w := Walk(step, p0, n);
      NewTiles(step, p0, marked0, n - 1) +
        if w.Some? && Cell(w.value) !in VisitedCells(step, p0, marked0, n - 1) then [Cell(w.value)] else []
  }

  /** The new tiles are distinct, none of them was marked before the walk
    * or is the start, and together with those they are the visited tiles. */
  lemma {:induction false} NewTilesMeaning(step: Pose -> Option<Pose>, p0: Pose, marked0: set<Position>, n: nat)
    ensures var tiles := NewTiles(step, p0, marked0, n);
      (forall a, b :: 0 <= a < b < |tiles| ==> tiles[a] != tiles[b]) &&
      (forall x :: x in tiles <==> x in VisitedCells(step, p0, marked0, n) && x !in marked0 + {Cell(p0)})
  {
    if n > 0 {
      NewTilesMeaning(step, p0, marked0, n - 1);
      var prev := NewTiles(step, p0, marked0, n - 1);
      var tiles := NewTiles(step, p0, marked0, n);
      var w := Walk(step, p0, n);
      if w.Some? && Cell(w.value) !in VisitedCells(step, p0, marked0, n - 1) {
        assert tiles == prev + [Cell(w.value)];
        assert forall a :: 0 <= a < |prev| ==> tiles[a] == prev[a];
      } else {
        assert tiles == prev;
      }
    }
  }

  /** Once the walk has ended, later moves add no tile. */
  lemma {:induction false} NewTilesAfterEnd(step: Pose -> Option<Pose>, p0: Pose, marked0: set<Position>, m: nat, n: nat)
    requires m <= n && Walk(step, p0, m + 1).None?
    ensures NewTiles(step, p0, marked0, n) == NewTiles(step, p0, marked0, m)
    ensures VisitedCells(step, p0, marked0, n) == VisitedCells(step, p0, marked0, m)
    decreases n - m
  {
    if m < n {
      NewTilesAfterEnd(step, p0, marked0, m, n - 1);
      WalkEnded(step, p0, m + 1, n);
    }
  }

  /** The turning of `move_guard` and `move_guard_with_direction`: turn
    * right while the guard faces an obstacle, at most four times, and
    * return the byte the guard then faces. */
  method TurnAtObstacles(guard: Guard, grid: array2<bv8>, ghost obs: set<Position>) returns (next: bv8)
    requires OnMap(guard.Value(), grid.Length0, grid.Length1) && Heading(guard.Value())
    requires ObstaclesAre(grid, obs)
    modifies guard
    ensures var p := old(guard.Value());
      guard.Value() == Turned(p, FreeTurns(obs, grid.Length0, grid.Length1, p, 0))
    ensures OnMap(guard.Value(), grid.Length0, grid.Length1) && Heading(guard.Value())
    ensures next == PeekGuard(guard.Value(), grid)
  {
    ghost var p := guard.Value();
    var turns := 0;
    next := PeekGuard(guard.Value(), grid);
    while next == OBSTACLE && turns < 4
      invariant 0 <= turns <= 4 && guard.Value() == Turned(p, turns)
      invariant next == PeekGuard(guard.Value(), grid)
      invariant forall j :: 0 <= j < turns ==> Blocked(obs, grid.Length0, grid.Length1, Turned(p, j))
      decreases 4 - turns
    {
      PeekMeaning(guard.Value(), grid, obs);
      guard.dir := RotateRight(guard.dir);
      turns := turns + 1;
      next := PeekGuard(guard.Value(), grid);
    }
    PeekMeaning(guard.Value(), grid, obs);
    TurnedHeading(p, turns);
    FreeTurnsUnique(obs, grid.Length0, grid.Length1, p, turns);
  }

  /** After its turns, the guard faces an obstacle only when boxed in, the
    * terminator when its move leaves the map, and otherwise the tile it
    * moves onto. */
  lemma NextAfterTurns(grid: array2<bv8>, obs: set<Position>, p: Pose, q: Pose)
    requires OnMap(p, grid.Length0, grid.Length1) && Heading(p)
    requires NoNul(grid) && ObstaclesAre(grid, obs)
    requires q == Turned(p, FreeTurns(obs, grid.Length0, grid.Length1, p, 0))
    ensures OnMap(q, grid.Length0, grid.Length1) && Heading(q)
    ensures var n := Next(obs, grid.Length0, grid.Length1, p);
      var c := PeekGuard(q, grid);
      (n.None? <==> c == OBSTACLE || c == NUL) &&
      (c == OBSTACLE ==> q == p) &&
      (n.Some? ==> n.value == Ahead(q) && c == grid[n.value.row, n.value.col])
  {
    var t := FreeTurns(obs, grid.Length0, grid.Length1, p, 0);
    TurnedHeading(p, t);
    PeekMeaning(q, grid, obs);
    if t == 4 {
      TurnedFour(p);
    }
  }

  /** The step of the guard along its heading. */
  method StepForward(guard: Guard)
    modifies guard
    ensures guard.Value() == Ahead(old(guard.Value()))
  {
    if guard.dir == UP {
      guard.row := guard.row - 1;
    } else if guard.dir == RIGHT {
      guard.col := guard.col + 1;
    } else if guard.dir == DOWN {
      guard.row := guard.row + 1;
    } else {
      guard.col := guard.col - 1;
    }
  }

  /** `move_guard`: one move, marking the tile stepped onto with 'X'.  The
    * result is 1 for a tile not marked before, 0 for a marked one, and -1
    * when the guard would leave the map or is boxed in, in which case it
    * has only turned. */
  method MoveGuard(guard: Guard, grid: array2<bv8>, ghost obs: set<Position>) returns (newTile: int)
    requires OnMap(guard.Value(), grid.Length0, grid.Length1) && Heading(guard.Value())
    requires NoNul(grid) && ObstaclesAre(grid, obs)
    modifies guard, grid
    ensures NoNul(grid) && ObstaclesAre(grid, obs)
    ensures var p := old(guard.Value());
      var n := Next(obs, grid.Length0, grid.Length1, p);
      if n.None? then
        newTile == -1 && unchanged(grid) &&
        guard.Value() == Turned(p, FreeTurns(obs, grid.Length0, grid.Length1, p, 0))
      else
        guard.Value() == n.value &&
        newTile == (if old(grid[n.value.row, n.value.col]) == VISITED then 0 else 1) &&
        grid[n.value.row, n.value.col] == VISITED &&
        forall r, c :: 0 <= r < grid.Length0 && 0 <= c < grid.Length1 && Position(r, c) != Cell(n.value) ==>
          grid[r, c] == old(grid[r, c])
  {
    ghost var p := guard.Value();
    var next := TurnAtObstacles(guard, grid, obs);
    NextAfterTurns(grid, obs, p, guard.Value());
    if next == OBSTACLE {
      // boxed in on all four sides
      return -1;
    }
    if next == NUL {
      return -1;
    }
    newTile := if next == VISITED then 0 else 1;
    StepForward(guard);
    grid[guard.row, guard.col] := VISITED;
  }

  /** The tiles marked 'X' in a map. */
  ghost function VisitedMarks(grid: array2<bv8>): (m: set<Position>)
    reads grid
    ensures forall r, c :: 0 <= r < grid.Length0 && 0 <= c < grid.Length1 ==>
      (grid[r, c] == VISITED <==> Position(r, c) in m)
  {
    set r, c | 0 <= r < grid.Length0 && 0 <= c < grid.Length1 && grid[r, c] == VISITED :: Position(r, c)
  }

  /** The obstacles a walk from `p0` meets: the start tile is overwritten
    * before the walk begins. */
  ghost function WalkObstacles(grid: array2<bv8>, p0: Pose): set<Position>
    reads grid
  {
    Obstacles(grid) - {Cell(p0)}
  }

  /** The contents of a map, row by row. */
  ghost function Snapshot(grid: array2<bv8>): (s: seq<seq<bv8>>)
    reads grid
    ensures |s| == grid.Length0 && forall r :: 0 <= r < |s| ==> |s[r]| == grid.Length1
    ensures forall r, c :: 0 <= r < grid.Length0 && 0 <= c < grid.Length1 ==> s[r][c] == grid[r, c]
  {
    seq(grid.Length0, r requires 0 <= r < grid.Length0 reads grid =>
      seq(grid.Length1, c requires 0 <= c < grid.Length1 reads grid => grid[r, c]))
  }

  /** The visited tiles hold 'X' and every other tile what it held in
    * `orig`. */
  ghost predicate MarkedVisited(grid: array2<bv8>, orig: seq<seq<bv8>>, visited: set<Position>)
    reads grid
  {
    |orig| == grid.Length0 && (forall r :: 0 <= r < |orig| ==> |orig[r]| == grid.Length1) &&
    forall r, c :: 0 <= r < grid.Length0 && 0 <= c < grid.Length1 ==>
      grid[r, c] == if Position(r, c) in visited then VISITED else orig[r][c]
  }

  /** One round of `unique_visited_tiles`: move the guard, and collect the
    * tile it steps onto when it was not marked. */
  method VisitStep(guard: Guard, grid: array2<bv8>, ghost obs: set<Position>, ghost p0: Pose,
                   ghost marked0: set<Position>, ghost orig: seq<seq<bv8>>, ghost i: nat, tiles: seq<Position>)
    returns (move: int, tiles': seq<Position>)
    requires Walk(GuardStep(obs, grid.Length0, grid.Length1), p0, i) == Some(guard.Value())
    requires OnMap(guard.Value(), grid.Length0, grid.Length1) && Heading(guard.Value())
    requires NoNul(grid) && ObstaclesAre(grid, obs)
    requires tiles == NewTiles(GuardStep(obs, grid.Length0, grid.Length1), p0, marked0, i)
    requires MarkedVisited(grid, orig, VisitedCells(GuardStep(obs, grid.Length0, grid.Length1), p0, marked0, i))
    requires forall r, c :: 0 <= r < grid.Length0 && 0 <= c < grid.Length1 ==>
      (orig[r][c] == VISITED <==> Position(r, c) in marked0)
    modifies guard, grid
    ensures var w := Walk(GuardStep(obs, grid.Length0, grid.Length1), p0, i + 1);
      (move == -1 <==> w.None?) && (w.Some? ==> guard.Value() == w.value)
    ensures NoNul(grid) && ObstaclesAre(grid, obs)
    ensures OnMap(guard.Value(), grid.Length0, grid.Length1) && Heading(guard.Value())
    ensures tiles' == NewTiles(GuardStep(obs, grid.Length0, grid.Length1), p0, marked0, i + 1)
    ensures MarkedVisited(grid, orig, VisitedCells(GuardStep(obs, grid.Length0, grid.Length1), p0, marked0, i + 1))
  {
    ghost var step := GuardStep(obs, grid.Length0, grid.Length1);
    ghost var n := Next(obs, grid.Length0, grid.Length1, guard.Value());
    GuardWalkStep(obs, grid.Length0, grid.Length1, p0, i);
    ghost var visited := VisitedCells(step, p0, marked0, i);
    ghost var before := if n.Some? then grid[n.value.row, n.value.col] else NUL;
    assert n.Some? ==> (before == VISITED <==> Cell(n.value) in visited);
    move := MoveGuard(guard, grid, obs);
    tiles' := tiles;
    if move == 1 {
      tiles' := tiles + [Position(guard.row, guard.col)];
    }
    TurnedHeadingUpTo(old(guard.Value()), FreeTurns(obs, grid.Length0, grid.Length1, old(guard.Value()), 0));
  }

  /** `unique_visited_tiles`: mark the start, then move the guard at most
    * rows times columns times, collecting each tile it steps onto that no
    * 'X' marked yet. */
  method UniqueVisitedTiles(grid: array2<bv8>, p0: Pose) returns (tiles: seq<Position>)
    requires OnMap(p0, grid.Length0, grid.Length1) && Heading(p0) && NoNul(grid)
    modifies grid
    ensures var step := GuardStep(old(WalkObstacles(grid, p0)), grid.Length0, grid.Length1);
      var marked0 := old(VisitedMarks(grid));
      var moves := grid.Length0 * grid.Length1;
      tiles == NewTiles(step, p0, marked0, moves) &&
      forall r, c :: 0 <= r < grid.Length0 && 0 <= c < grid.Length1 ==>
        grid[r, c] == if Position(r, c) in VisitedCells(step, p0, marked0, moves) then VISITED else old(grid[r, c])
  {
    ghost var obs := WalkObstacles(grid, p0);
    ghost var step := GuardStep(obs, grid.Length0, grid.Length1);
    ghost var marked0 := VisitedMarks(grid);
    ghost var orig := Snapshot(grid);
    grid[p0.row, p0.col] := VISITED;
    var guard := new Guard(p0);
    var maxTiles := grid.Length0 * grid.Length1;
    tiles := [];
    var i := 0;
    while i < maxTiles
      invariant 0 <= i <= maxTiles
      invariant Walk(step, p0, i) == Some(guard.Value())
      invariant OnMap(guard.Value(), grid.Length0, grid.Length1) && Heading(guard.Value())
      invariant NoNul(grid) && ObstaclesAre(grid, obs)
      invariant tiles == NewTiles(step, p0, marked0, i)
      invariant MarkedVisited(grid, orig, VisitedCells(step, p0, marked0, i))
    {
      var move;
      move, tiles := VisitStep(guard, grid, obs, p0, marked0, orig, i, tiles);
      if move == -1 {
        NewTilesAfterEnd(step, p0, marked0, i, maxTiles);
        break;
      }
      i := i + 1;
    }
  }

  // ---- Part 2: marking headings and finding loops ----

  /** The bitmask of the headings in which `seen` has the guard on `x`. */
  function Mask(seen: set<Pose>, x: Position): bv8 {
    (if Pose(x.row, x.col, UP) in seen then Bit(UP) else 0) |
    (if Pose(x.row, x.col, RIGHT) in seen then Bit(RIGHT) else 0) |
    (if Pose(x.row, x.col, DOWN) in seen then Bit(DOWN) else 0) |
    (if Pose(x.row, x.col, LEFT) in seen then Bit(LEFT) else 0)
  }

  /** A mask keeps to the low nibble, and has the bit of a heading exactly
    * when the guard stood on the tile in that heading. */
  lemma MaskBits(seen: set<Pose>, x: Position, d: int)
    requires 0 <= d < 4
    ensures Mask(seen, x) & 0xf0 == 0
    ensures Mask(seen, x) & Bit(d) != 0 <==> Pose(x.row, x.col, d) in seen
  {
  }

  lemma MaskAdd(seen: set<Pose>, q: Pose, x: Position)
    requires Heading(q)
    ensures Mask(seen + {q}, x) == if Cell(q) == x then Mask(seen, x) | Bit(q.dir) else Mask(seen, x)
  {
  }

  /** The byte a tile holds once the walk has seen the poses `seen`: the
    * mask of its headings if the guard stood on it, else the character
    * `o` it held before. */
  function Expected(o: bv8, seen: set<Pose>, x: Position): bv8 {
    var m := Mask(seen, x);
    if m != 0 then m else o
  }

  /** On a tile that held a printable character, the test of
    * `move_guard_with_direction` finds the guard's pose exactly when the
    * walk saw it before, and otherwise its update records the pose. */
  lemma MarkStep(o: bv8, seen: set<Pose>, q: Pose)
    requires o & 0xf0 != 0 && Heading(q)
    ensures var e := Expected(o, seen, Cell(q));
      (e & 0xf0 == 0 && e & Bit(q.dir) != 0 <==> q in seen) &&
      (q !in seen ==> (if e & 0xf0 != 0 then Bit(q.dir) else e | Bit(q.dir)) == Expected(o, seen + {q}, Cell(q)))
  {
    MaskBits(seen, Cell(q), q.dir);
    MaskAdd(seen, q, Cell(q));
    if Mask(seen, Cell(q)) == 0 {
      MaskBits(seen, Cell(q), q.dir);
    }
  }

  /** Every tile holds the byte `Expected` gives for the poses `seen`. */
  ghost predicate MarkedHeadings(grid: array2<bv8>, orig: seq<seq<bv8>>, seen: set<Pose>)
    reads grid
  {
    |orig| == grid.Length0 && (forall r :: 0 <= r < |orig| ==> |orig[r]| == grid.Length1) &&
    forall r, c :: 0 <= r < grid.Length0 && 0 <= c < grid.Length1 ==>
      grid[r, c] == Expected(orig[r][c], seen, Position(r, c))
  }

  ghost predicate PrintableRows(orig: seq<seq<bv8>>) {
    forall r, c :: 0 <= r < |orig| && 0 <= c < |orig[r]| ==> orig[r][c] & 0xf0 != 0
  }

  /** `move_guard_with_direction`: one move, recording the heading on the
    * tile stepped onto.  A tile that holds a printable character gets the
    * heading's bit alone; a tile that holds a mask without that bit gets
    * it added; a mask that has it already makes the result 1, a loop.  The
    * result is -1 when the guard would leave the map or is boxed in. */
  method MoveGuardWithDirection(guard: Guard, grid: array2<bv8>, ghost obs: set<Position>) returns (loopFound: int)
    requires OnMap(guard.Value(), grid.Length0, grid.Length1) && Heading(guard.Value())
    requires NoNul(grid) && ObstaclesAre(grid, obs)
    modifies guard, grid
    ensures NoNul(grid) && ObstaclesAre(grid, obs)
    ensures var p := old(guard.Value());
      var n := Next(obs, grid.Length0, grid.Length1, p);
      if n.None? then
        loopFound == -1 && unchanged(grid) &&
        guard.Value() == Turned(p, FreeTurns(obs, grid.Length0, grid.Length1, p, 0))
      else
        var a := n.value;
        var o := old(grid[a.row, a.col]);
        guard.Value() == a &&
        loopFound == (if o & 0xf0 == 0 && o & Bit(a.dir) != 0 then 1 else 0) &&
        grid[a.row, a.col] == (if o & 0xf0 != 0 then Bit(a.dir) else o | Bit(a.dir)) &&
        forall r, c :: 0 <= r < grid.Length0 && 0 <= c < grid.Length1 && Position(r, c) != Cell(a) ==>
          grid[r, c] == old(grid[r, c])
  {
    ghost var p := guard.Value();
    var next := TurnAtObstacles(guard, grid, obs);
    NextAfterTurns(grid, obs, p, guard.Value());
    if next == OBSTACLE {
      // boxed in on all four sides
      return -1;
    }
    if next == NUL {
      return -1;
    }
    StepForward(guard);
    loopFound := RecordHeading(guard.Value(), grid, obs);
  }

  /** The marking of `move_guard_with_direction` on the tile the guard has
    * stepped onto. */
  method RecordHeading(q: Pose, grid: array2<bv8>, ghost obs: set<Position>) returns (loopFound: int)
    requires OnMap(q, grid.Length0, grid.Length1) && Heading(q) && Cell(q) !in obs
    requires NoNul(grid) && ObstaclesAre(grid, obs)
    modifies grid
    ensures NoNul(grid) && ObstaclesAre(grid, obs)
    ensures var o := old(grid[q.row, q.col]);
      loopFound == (if o & 0xf0 == 0 && o & Bit(q.dir) != 0 then 1 else 0) &&
      grid[q.row, q.col] == (if o & 0xf0 != 0 then Bit(q.dir) else o | Bit(q.dir)) &&
      forall r, c :: 0 <= r < grid.Length0 && 0 <= c < grid.Length1 && Position(r, c) != Cell(q) ==>
        grid[r, c] == old(grid[r, c])
  {
    var oldTile := grid[q.row, q.col];
    if oldTile & 0xf0 != 0 {
      grid[q.row, q.col] := Bit(q.dir);
    } else if oldTile & Bit(q.dir) != 0 {
      return 1;
    } else {
      grid[q.row, q.col] := oldTile | Bit(q.dir);
    }
    return 0;
  }

  /** The first statement of `contains_loop`: the start tile gets the bit
    * of the guard's heading. */
  method MarkStart(grid: array2<bv8>, p0: Pose) returns (ghost orig: seq<seq<bv8>>)
    requires OnMap(p0, grid.Length0, grid.Length1) && Heading(p0) && Printable(grid)
    modifies grid
    ensures orig == old(Snapshot(grid)) && PrintableRows(orig)
    ensures MarkedHeadings(grid, orig, {p0})
    ensures NoNul(grid) && ObstaclesAre(grid, old(WalkObstacles(grid, p0)))
  {
    orig := Snapshot(grid);
    grid[p0.row, p0.col] := Bit(p0.dir);
    forall r, c | 0 <= r < grid.Length0 && 0 <= c < grid.Length1
      ensures grid[r, c] == Expected(orig[r][c], {p0}, Position(r, c))
    {
      MaskAdd({}, p0, Position(r, c));
      assert {} + {p0} == {p0};
    }
  }

  /** Coming back to a pose seen before, the walk goes on forever. */
  lemma SeenAgain(step: Pose -> Option<Pose>, p0: Pose, i: nat, n: nat)
    requires Walk(step, p0, i + 1).Some? && Walk(step, p0, i + 1).value in Seen(step, p0, i)
    ensures Walk(step, p0, n).Some?
  {
    var q := Walk(step, p0, i + 1).value;
    SeenMeaning(step, p0, i, q);
    var j :| 0 <= j <= i && Walk(step, p0, j) == Some(q);
    LoopsForever(step, p0, j, i + 1, n);
  }

  /** One round of `contains_loop`. */
  method LoopStep(guard: Guard, grid: array2<bv8>, ghost obs: set<Position>, ghost p0: Pose,
                  ghost orig: seq<seq<bv8>>, ghost i: nat) returns (move: int)
    requires Walk(GuardStep(obs, grid.Length0, grid.Length1), p0, i) == Some(guard.Value())
    requires OnMap(guard.Value(), grid.Length0, grid.Length1) && Heading(guard.Value())
    requires NoNul(grid) && ObstaclesAre(grid, obs) && PrintableRows(orig)
    requires MarkedHeadings(grid, orig, Seen(GuardStep(obs, grid.Length0, grid.Length1), p0, i))
    modifies guard, grid
    ensures var step := GuardStep(obs, grid.Length0, grid.Length1);
      var w := Walk(step, p0, i + 1);
      (move == -1 <==> w.None?) &&
      (move == 1 ==> w.Some? && w.value in Seen(step, p0, i)) &&
      (move != -1 && move != 1 ==>
         w.Some? && guard.Value() == w.value && MarkedHeadings(grid, orig, Seen(step, p0, i + 1)))
    ensures NoNul(grid) && ObstaclesAre(grid, obs)
    ensures OnMap(guard.Value(), grid.Length0, grid.Length1) && Heading(guard.Value())
  {
    ghost var step := GuardStep(obs, grid.Length0, grid.Length1);
    ghost var n := Next(obs, grid.Length0, grid.Length1, guard.Value());
    GuardWalkStep(obs, grid.Length0, grid.Length1, p0, i);
    ghost var seen := Seen(step, p0, i);
    ghost var a := if n.Some? then Cell(n.value) else Position(0, 0);
    if n.Some? {
      MarkStep(orig[a.row][a.col], seen, n.value);
    }
    ghost var p := guard.Value();
    move := MoveGuardWithDirection(guard, grid, obs);
    TurnedHeadingUpTo(p, FreeTurns(obs, grid.Length0, grid.Length1, p, 0));
    if move == 0 {
      forall r, c | 0 <= r < grid.Length0 && 0 <= c < grid.Length1
        ensures grid[r, c] == Expected(orig[r][c], seen + {n.value}, Position(r, c))
      {
        MaskAdd(seen, n.value, Position(r, c));
      }
    }
  }

  /** `contains_loop`: record the start, then move the guard at most rows
    * times columns times.  The result is 0 when the guard leaves the map,
    * and 1 when it comes back to a pose or the moves run out. */
  method ContainsLoop(grid: array2<bv8>, p0: Pose) returns (loops: int)
    requires OnMap(p0, grid.Length0, grid.Length1) && Heading(p0) && Printable(grid)
    modifies grid
    ensures loops == 0 || loops == 1
    ensures var step := GuardStep(old(WalkObstacles(grid, p0)), grid.Length0, grid.Length1);
      loops == 1 <==> Walk(step, p0, grid.Length0 * grid.Length1).Some?
  {
    ghost var obs := WalkObstacles(grid, p0);
    ghost var step := GuardStep(obs, grid.Length0, grid.Length1);
    ghost var orig := MarkStart(grid, p0);
    var guard := new Guard(p0);
    var maxTiles := grid.Length0 * grid.Length1;
    var i := 0;
    while i < maxTiles
      invariant 0 <= i <= maxTiles
      invariant Walk(step, p0, i) == Some(guard.Value())
      invariant OnMap(guard.Value(), grid.Length0, grid.Length1) && Heading(guard.Value())
      invariant NoNul(grid) && ObstaclesAre(grid, obs)
      invariant MarkedHeadings(grid, orig, Seen(step, p0, i))
    {
      var move := LoopStep(guard, grid, obs, p0, orig, i);
      if move == -1 {
        WalkEnded(step, p0, i + 1, maxTiles);
        return 0;
      } else if move == 1 {
        SeenAgain(step, p0, i, maxTiles);
        return 1;
      }
      i := i + 1;
    }
    return 1;
  }

  /** How many of `positions` trap the guard when an obstacle is added
    * there: the walk from `p0` still goes on after rows times columns
    * moves. */
  ghost function LoopCount(obs: set<Position>, rows: int, cols: int, p0: Pose, positions: seq<Position>): (n: nat)
    requires 0 <= rows && 0 <= cols
    ensures n <= |positions|
  {
    if |positions| == 0 then 0
    else
      var step := GuardStep(obs + {positions[0]} - {Cell(p0)}, rows, cols);
      (if Walk(step, p0, rows * cols).Some? then 1 else 0) + LoopCount(obs, rows, cols, p0, positions[1..])
  }

  /** `obs` is the obstacle set of `grid` when it is exactly its obstacle
    * tiles. */
  lemma ObstaclesUnique(grid: array2<bv8>, obs: set<Position>)
    requires ObstaclesAre(grid, obs)
    requires forall x :: x in obs ==> 0 <= x.row < grid.Length0 && 0 <= x.col < grid.Length1
    ensures obs == Obstacles(grid)
  {
  }

  /** `obstructions_that_create_loops`: for each position, copy the map,
    * put an obstacle there, and count the copies where `contains_loop`
    * finds a loop.  The map itself is not changed. */
  method ObstructionsThatCreateLoops(grid: array2<bv8>, positions: seq<Position>, p0: Pose) returns (count: int)
    requires OnMap(p0, grid.Length0, grid.Length1) && Heading(p0) && Printable(grid)
    requires forall k :: 0 <= k < |positions| ==>
      0 <= positions[k].row < grid.Length0 && 0 <= positions[k].col < grid.Length1
    ensures count == LoopCount(Obstacles(grid), grid.Length0, grid.Length1, p0, positions)
    decreases |positions|
  {
    if |positions| <= 0 {
      return 0;
    }
    var copy := new bv8[grid.Length0, grid.Length1]((r, c) reads grid =>
      if 0 <= r < grid.Length0 && 0 <= c < grid.Length1 then grid[r, c] else NUL);
    copy[positions[0].row, positions[0].col] := OBSTACLE;
    ObstaclesUnique(copy, Obstacles(grid) + {positions[0]});
    var firstCreatesLoop := ContainsLoop(copy, p0);
    var rest := ObstructionsThatCreateLoops(grid, positions[1..], p0);
    count := firstCreatesLoop + rest;
  }

  // ---- The turning recursion as written ----

  datatype MoveOutcome = OffMap | Lands(pose: Pose) | NoReturn

  /** The recursion of `move_guard` and `move_guard_with_direction` as
    * written: at an obstacle, turn right and call again, with no limit on
    * the turns.  `fuel` bounds the depth of the calls; `NoReturn` is an
    * outcome not reached within it. */
  function MoveAsWritten(obs: set<Position>, rows: int, cols: int, p: Pose, fuel: nat): MoveOutcome
    decreases fuel
  {
    if fuel == 0 then NoReturn
    else if !OnMap(Ahead(p), rows, cols) then OffMap
    else if Cell(Ahead(p)) in obs then MoveAsWritten(obs, rows, cols, Rotated(p), fuel - 1)
    else Lands(Ahead(p))
  }

  /** A guard boxed in by four obstacles makes the recursion as written go
    * on at any depth, where the corrected move reports -1. */
  lemma {:induction false} BoxedNeverReturns(obs: set<Position>, rows: int, cols: int, p: Pose, fuel: nat)
    requires Heading(p) && Boxed(obs, rows, cols, p)
    ensures MoveAsWritten(obs, rows, cols, p, fuel) == NoReturn
    ensures Next(obs, rows, cols, p) == None
    decreases fuel
  {
    assert Blocked(obs, rows, cols, Turned(p, 0));
    if fuel > 0 {
      FreeTurnsRotated(obs, rows, cols, p);
      BoxedNeverReturns(obs, rows, cols, Rotated(p), fuel - 1);
    }
  }

  /** When the guard is not boxed in, the recursion as written returns
    * within five calls, with the corrected move's outcome. */
  lemma {:induction false} AsWrittenAgrees(obs: set<Position>, rows: int, cols: int, p: Pose, fuel: nat)
    requires Heading(p) && !Boxed(obs, rows, cols, p)
    requires fuel > FreeTurns(obs, rows, cols, p, 0)
    ensures var n := Next(obs, rows, cols, p);
      MoveAsWritten(obs, rows, cols, p, fuel) == if n.None? then OffMap else Lands(n.value)
    decreases FreeTurns(obs, rows, cols, p, 0)
  {
    if Blocked(obs, rows, cols, p) {
      FreeTurnsRotated(obs, rows, cols, p);
      NextAtObstacle(obs, rows, cols, p);
      AsWrittenAgrees(obs, rows, cols, Rotated(p), fuel - 1);
    } else {
      NextClear(obs, rows, cols, p);
    }
  }

  /** A three-by-three map whose guard starts facing up at the centre with
    * obstacles above, left and right of it: the guard's first move is
    * down, so that tile is tried for an obstacle, and with it there the
    * recursion as written never returns. */
  lemma BoxedExample(fuel: nat)
    ensures var p := Pose(1, 1, UP);
      var obs := {Position(0, 1), Position(1, 0), Position(1, 2)};
      Next(obs, 3, 3, p) == Some(Pose(2, 1, DOWN)) &&
      Boxed(obs + {Position(2, 1)}, 3, 3, p) &&
      MoveAsWritten(obs + {Position(2, 1)}, 3, 3, p, fuel) == NoReturn
  {
    var p := Pose(1, 1, UP);
    var obs := {Position(0, 1), Position(1, 0), Position(1, 2)};
    var boxed := obs + {Position(2, 1)};
    assert Turned(p, 1) == Pose(1, 1, RIGHT);
    assert Turned(p, 2) == Pose(1, 1, DOWN);
    assert Turned(p, 3) == Pose(1, 1, LEFT);
    assert FreeTurns(obs, 3, 3, p, 2) == 2;
    assert FreeTurns(boxed, 3, 3, p, 3) == 4;
    BoxedNeverReturns(boxed, 3, 3, p, fuel);
  }
}
