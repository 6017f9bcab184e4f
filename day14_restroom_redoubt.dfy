// Day 14, part 1: robots wrapping around a 101 x 103 room, and the
// safety factor of their positions after 100 seconds.

module RestroomRedoubt {
  import opened CArith

  const MAP_WIDTH: int := 101
  const MAP_HEIGHT: int := 103
  const MOVE_COUNT: int := 100

  datatype Point = Point(x: int, y: int)
  datatype Robot = Robot(pos: Point, vel: Point)

  predicate InRoom(p: Point) {
    0 <= p.x < MAP_WIDTH && 0 <= p.y < MAP_HEIGHT
  }

  /** C's `((v * MOVE_COUNT + p) % size + size) % size`, with the
    * truncating `%`. */
  function Wrap(v: int, p: int, size: int): (r: int)
    requires size > 0
    ensures 0 <= r < size
    ensures r == (v * MOVE_COUNT + p) % size
  {
    var t := CRem(v * MOVE_COUNT + p, size);
    DivRemIdentity(v * MOVE_COUNT + p, size);
    var r := CRem(t + size, size);
    DivRemIdentity(t + size, size);
    EuclideanFromRepresentation(v * MOVE_COUNT + p, size, CDiv(v * MOVE_COUNT + p, size) - 1 + CDiv(t + size, size), r);
    r
  }

  lemma EuclideanFromRepresentation(a: int, size: int, q: int, r: int)
    requires size > 0 && 0 <= r < size && a == q * size + r
    ensures a % size == r
  {
    DivUnique(a, size, q, r);
  }

  /** Where a robot is after MOVE_COUNT seconds. */
  function Destination(robot: Robot): (d: Point)
    ensures InRoom(d)
  {
    Point(Wrap(robot.vel.x, robot.pos.x, MAP_WIDTH), Wrap(robot.vel.y, robot.pos.y, MAP_HEIGHT))
  }

  /** One second of movement, wrapping at the walls. */
  function Tick(p: Point, vel: Point): Point {
    Point((p.x + vel.x) % MAP_WIDTH, (p.y + vel.y) % MAP_HEIGHT)
  }

  /** `k` seconds of movement. */
  function Walk(p: Point, vel: Point, k: nat): Point {
    if k == 0 then p else Tick(Walk(p, vel, k - 1), vel)
  }

  lemma {:induction false} WalkIsModular(p: Point, vel: Point, k: nat)
    requires InRoom(p)
    ensures Walk(p, vel, k) == Point((p.x + k * vel.x) % MAP_WIDTH, (p.y + k * vel.y) % MAP_HEIGHT)
  {
    if k > 0 {
      WalkIsModular(p, vel, k - 1);
      ModAddStep(p.x + (k - 1) * vel.x, vel.x, MAP_WIDTH);
      ModAddStep(p.y + (k - 1) * vel.y, vel.y, MAP_HEIGHT);
      assert p.x + (k - 1) * vel.x + vel.x == p.x + k * vel.x;
      assert p.y + (k - 1) * vel.y + vel.y == p.y + k * vel.y;
    } else {
      assert p.x % MAP_WIDTH == p.x && p.y % MAP_HEIGHT == p.y;
    }
  }

  lemma ModAddStep(a: int, v: int, size: int)
    requires size > 0
    ensures (a % size + v) % size == (a + v) % size
  {
    DivUnique(a + v, size, a / size + (a % size + v) / size, (a % size + v) % size);
  }

  /** The closed form agrees with stepping the robot one second at a time,
    * negative velocities included. */
  lemma DestinationIsWalk(robot: Robot)
    requires InRoom(robot.pos)
    ensures Destination(robot) == Walk(robot.pos, robot.vel, MOVE_COUNT as nat)
  {
    WalkIsModular(robot.pos, robot.vel, MOVE_COUNT as nat);
    assert robot.vel.x * MOVE_COUNT + robot.pos.x == robot.pos.x + (MOVE_COUNT as nat) * robot.vel.x;
    assert robot.vel.y * MOVE_COUNT + robot.pos.y == robot.pos.y + (MOVE_COUNT as nat) * robot.vel.y;
  }

  /** The middle column and row, which belong to no quadrant. */
  const MID: Point := Point(MAP_WIDTH / 2, MAP_HEIGHT / 2)

  /** Index of the quadrant counter a destination increments, -1 for none:
    * 0 upper right, 1 upper left, 2 lower left, 3 lower right. */
  function Quadrant(d: Point): (q: int)
    ensures -1 <= q < 4
    ensures q == -1 <==> d.x == MID.x || d.y == MID.y
    ensures q == 0 <==> d.x > MID.x && d.y < MID.y
    ensures q == 1 <==> d.x < MID.x && d.y < MID.y
    ensures q == 2 <==> d.x < MID.x && d.y > MID.y
    ensures q == 3 <==> d.x > MID.x && d.y > MID.y
  {
    if d.x < MID.x then
      if d.y < MID.y then 1 else if d.y > MID.y then 2 else -1
    else if d.x > MID.x then
      if d.y < MID.y then 0 else if d.y > MID.y then 3 else -1
    else -1
  }

  /** Number of robots whose destination falls in quadrant `q`. */
  function CountIn(robots: seq<Robot>, q: int): nat {
    if |robots| == 0 then 0
    else CountIn(robots[..|robots| - 1], q) + (if Quadrant(Destination(robots[|robots| - 1])) == q then 1 else 0)
  }

  /** Every robot is counted in exactly one of the four quadrants or on a
    * midline. */
  lemma {:induction false} CountsPartition(robots: seq<Robot>)
    ensures CountIn(robots, 0) + CountIn(robots, 1) + CountIn(robots, 2) + CountIn(robots, 3)
            + CountIn(robots, -1) == |robots|
  {
    if |robots| > 0 {
      CountsPartition(robots[..|robots| - 1]);
    }
  }

  /** The safety factor: the product of the four quadrant counts. */
  function SafetyFactor(robots: seq<Robot>): int {
    CountIn(robots, 0) * CountIn(robots, 1) * CountIn(robots, 2) * CountIn(robots, 3)
  }

  /** No robot in some quadrant means a safety factor of zero. */
  lemma EmptyQuadrantZero(robots: seq<Robot>, q: int)
    requires 0 <= q < 4 && CountIn(robots, q) == 0
    ensures SafetyFactor(robots) == 0
  {
    ZeroFactor(CountIn(robots, 0), CountIn(robots, 1), CountIn(robots, 2), CountIn(robots, 3));
  }

  lemma ZeroFactor(a: int, b: int, c: int, d: int)
    requires a == 0 || b == 0 || c == 0 || d == 0
    ensures a * b * c * d == 0
  {
  }

  function Product(s: seq<int>): int {
    if |s| == 0 then 1 else Product(s[..|s| - 1]) * s[|s| - 1]
  }

  /** Counts the robots per quadrant and multiplies the four counts. */
  method FindTree(robots: seq<Robot>) returns (safetyFactor: int)
    ensures safetyFactor == SafetyFactor(robots)
  {
    var perQuadrant := new int[4](_ => 0);
    var i := 0;
    while i < |robots|
      invariant 0 <= i <= |robots|
      invariant forall q :: 0 <= q < 4 ==> perQuadrant[q] == CountIn(robots[..i], q)
    {
      var dest := Destination(robots[i]);
      CountStep(robots, i);
      if dest.x < MID.x {
        if dest.y < MID.y {
          perQuadrant[1] := perQuadrant[1] + 1;
        } else if dest.y > MID.y {
          perQuadrant[2] := perQuadrant[2] + 1;
        }
      } else if dest.x > MID.x {
        if dest.y < MID.y {
          perQuadrant[0] := perQuadrant[0] + 1;
        } else if dest.y > MID.y {
          perQuadrant[3] := perQuadrant[3] + 1;
        }
      }
      i := i + 1;
    }
    assert robots[..i] == robots;
    safetyFactor := 1;
    var j := 0;
    while j < 4
      invariant 0 <= j <= 4
      invariant safetyFactor == Product(perQuadrant[..j])
    {
      assert perQuadrant[..j + 1][..j] == perQuadrant[..j];
      safetyFactor := safetyFactor * perQuadrant[j];
      j := j + 1;
    }
    ProductOfFour(perQuadrant[..4]);
  }

  lemma CountStep(robots: seq<Robot>, i: int)
    requires 0 <= i < |robots|
    ensures forall q ::
      CountIn(robots[..i + 1], q) == CountIn(robots[..i], q) + (if Quadrant(Destination(robots[i])) == q then 1 else 0)
  {
    assert robots[..i + 1][..i] == robots[..i];
  }

  lemma ProductOfFour(s: seq<int>)
    requires |s| == 4
    ensures Product(s) == s[0] * s[1] * s[2] * s[3]
  {
    assert s[..1][..0] == [];
    assert s[..2][..1] == s[..1];
    assert s[..3][..2] == s[..2];
    calc {
      Product(s);
      Product(s[..3]) * s[3];
      Product(s[..2]) * s[2] * s[3];
      Product(s[..1]) * s[1] * s[2] * s[3];
      Product([]) * s[0] * s[1] * s[2] * s[3];
    }
  }
}
