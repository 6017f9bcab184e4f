// Day 20, part 2: cheats of up to 20 steps through the walls of the
// racetrack.  Every cell of the best path gets its index in a distance map;
// a cheat from path index `i` lands on a cell at taxicab distance 2 .. 20
// whose index is far enough ahead to save at least MIN_SAVE steps.

module RaceCheats {
  import opened GridWalk
  import opened RaceCondition
  import opened FlatGrid

  const MIN_SAVE: int := 100
  const MAX_CHEAT_LENGTH: int := 20

  function Abs(x: int): nat {
    if x < 0 then -x else x
  }

  /** The number of grid steps between two cells, ignoring walls. */
  function Taxicab(p: Point, q: Point): nat {
    Abs(p.row - q.row) + Abs(p.col - q.col)
  }

  // ----- The ring of cells at one taxicab distance -----

  /** The `k`-th cell `find_points_at_taxicab_distance` writes: it starts
    * `d` cells east of the centre and walks the four sides of the diamond
    * north-west, south-west, south-east and north-east, `d` cells each. */
  function RingPoint(center: Point, d: int, k: int): Point
    requires 0 <= k < 4 * d
  {
    if k < d then Point(center.row - k, center.col + d - k)
    else if k < 2 * d then Point(center.row - d + (k - d), center.col - (k - d))
    else if k < 3 * d then Point(center.row + (k - 2 * d), center.col - d + (k - 2 * d))
    else Point(center.row + d - (k - 3 * d), center.col + (k - 3 * d))
  }

  /** The position of `p` on the ring of radius `d`: the side is read off
    * the signs of its offsets from the centre. */
  function RingIndex(center: Point, d: int, p: Point): int {
    var dr, dc := p.row - center.row, p.col - center.col;
    if dc > 0 && dr <= 0 then -dr
    else if dr < 0 && dc <= 0 then d - dc
    else if dc < 0 && dr >= 0 then 2 * d + dr
    else 3 * d + dc
  }

  /** Every ring cell is at distance `d`, and its position reads back. */
  lemma RingOnRadius(center: Point, d: int, k: int)
    requires 0 <= k < 4 * d
    ensures Taxicab(RingPoint(center, d, k), center) == d
    ensures RingIndex(center, d, RingPoint(center, d, k)) == k
  {
  }

  /** Every cell at distance `d >= 1` is on the ring, at its position. */
  lemma RingCovers(center: Point, d: int, p: Point)
    requires d >= 1 && Taxicab(p, center) == d
    ensures 0 <= RingIndex(center, d, p) < 4 * d
    ensures RingPoint(center, d, RingIndex(center, d, p)) == p
  {
  }

  /** The ring visits no cell twice. */
  lemma RingDistinct(center: Point, d: int, j: int, k: int)
    requires 0 <= j < 4 * d && 0 <= k < 4 * d
    ensures RingPoint(center, d, j) == RingPoint(center, d, k) <==> j == k
  {
    RingOnRadius(center, d, j);
    RingOnRadius(center, d, k);
  }

  /** `find_points_at_taxicab_distance`: the `4 * distance` cells at that
    * distance from `center`, in ring order, filled by four cursor loops. */
  method FindPointsAtTaxicabDistance(center: Point, distance: int) returns (points: array<Point>, returnSize: int)
    requires distance >= 0
    ensures fresh(points) && returnSize == points.Length == 4 * distance
    ensures forall k :: 0 <= k < returnSize ==> points[k] == RingPoint(center, distance, k)
    ensures forall k :: 0 <= k < returnSize ==> Taxicab(points[k], center) == distance
    ensures forall j, k :: 0 <= j < k < returnSize ==> points[j] != points[k]
  {
    returnSize := distance * 4;
    points := new Point[returnSize](_ => center);
    var cursor := 0;
    var p := Point(center.row, center.col + distance);
    // East to north.
    while p.col > center.col
      invariant 0 <= cursor <= distance
      invariant p == Point(center.row - cursor, center.col + distance - cursor)
      invariant forall k :: 0 <= k < cursor ==> points[k] == RingPoint(center, distance, k)
      decreases p.col - center.col
    {
      points[cursor] := p;
      cursor := cursor + 1;
      p := Point(p.row - 1, p.col - 1);
    }
    // North to west.
    while p.row < center.row
      invariant distance <= cursor <= 2 * distance
      invariant p == Point(center.row - distance + (cursor - distance), center.col - (cursor - distance))
      invariant forall k :: 0 <= k < cursor ==> points[k] == RingPoint(center, distance, k)
      decreases center.row - p.row
    {
      points[cursor] := p;
      cursor := cursor + 1;
      p := Point(p.row + 1, p.col - 1);
    }
    // West to south.
    while p.col < center.col
      invariant 2 * distance <= cursor <= 3 * distance
      invariant p == Point(center.row + (cursor - 2 * distance), center.col - distance + (cursor - 2 * distance))
      invariant forall k :: 0 <= k < cursor ==> points[k] == RingPoint(center, distance, k)
      decreases center.col - p.col
    {
      points[cursor] := p;
      cursor := cursor + 1;
      p := Point(p.row + 1, p.col + 1);
    }
    // South to east.
    while p.row > center.row
      invariant 3 * distance <= cursor <= 4 * distance
      invariant p == Point(center.row + distance - (cursor - 3 * distance), center.col + (cursor - 3 * distance))
      invariant forall k :: 0 <= k < cursor ==> points[k] == RingPoint(center, distance, k)
      decreases p.row - center.row
    {
      points[cursor] := p;
      cursor := cursor + 1;
      p := Point(p.row - 1, p.col + 1);
    }
    forall k | 0 <= k < returnSize
      ensures Taxicab(points[k], center) == distance
    {
      RingOnRadius(center, distance, k);
    }
    forall j, k | 0 <= j < k < returnSize
      ensures points[j] != points[k]
    {
      RingDistinct(center, distance, j, k);
    }
  }

  // ----- Shortcuts from one cell -----

  /** A cheat may land on `p`: it is on the map and its recorded distance
    * is at least `threshold`. */
  predicate Hit(dm: seq<int>, rows: int, cols: int, p: Point, threshold: int)
    requires |dm| == rows * cols
  {
    InGrid(p, rows, cols) && dm[Idx(p.row, p.col, rows, cols)] >= threshold
  }

  /** A cheat from `start` to `p` that `count_shortcuts_from_point` counts:
    * 2 to MAX_CHEAT_LENGTH steps long, shorter than `minSaved`, and landing
    * at a distance of at least `minSaved` plus its own length. */
  ghost predicate Shortcut(dm: seq<int>, rows: int, cols: int, start: Point, minSaved: int, p: Point)
    requires |dm| == rows * cols
  {
    var d := Taxicab(p, start);
    2 <= d <= MAX_CHEAT_LENGTH && d < minSaved && Hit(dm, rows, cols, p, minSaved + d)
  }

  /** The cells a counted cheat from `start` lands on. */
  ghost function Shortcuts(dm: seq<int>, rows: int, cols: int, start: Point, minSaved: int): set<Point>
    requires |dm| == rows * cols
  {
    set r, c | start.row - MAX_CHEAT_LENGTH <= r <= start.row + MAX_CHEAT_LENGTH &&
               start.col - MAX_CHEAT_LENGTH <= c <= start.col + MAX_CHEAT_LENGTH &&
               Shortcut(dm, rows, cols, start, minSaved, Point(r, c)) :: Point(r, c)
  }

  /** The hits among the first `k` cells of the ring of radius `d`. */
  ghost function RingHits(dm: seq<int>, rows: int, cols: int, start: Point, d: int, threshold: int, k: int): set<Point>
    requires |dm| == rows * cols && 0 <= k <= 4 * d
  {
    set j | 0 <= j < k && Hit(dm, rows, cols, RingPoint(start, d, j), threshold) :: RingPoint(start, d, j)
  }

  /** The landing cells of counted cheats shorter than `hi`. */
  ghost function Within(dm: seq<int>, rows: int, cols: int, start: Point, minSaved: int, hi: int): set<Point>
    requires |dm| == rows * cols
  {
    set r, c | start.row - hi < r < start.row + hi && start.col - hi < c < start.col + hi &&
               2 <= Taxicab(Point(r, c), start) < hi &&
               Hit(dm, rows, cols, Point(r, c), minSaved + Taxicab(Point(r, c), start)) :: Point(r, c)
  }

  /** One more ring cell adds one hit when it hits, and none otherwise. */
  lemma RingHitsStep(dm: seq<int>, rows: int, cols: int, start: Point, d: int, threshold: int, k: int)
    requires |dm| == rows * cols && 0 <= k < 4 * d
    ensures |RingHits(dm, rows, cols, start, d, threshold, k + 1)| ==
      |RingHits(dm, rows, cols, start, d, threshold, k)| +
      (if Hit(dm, rows, cols, RingPoint(start, d, k), threshold) then 1 else 0)
  {
    var p := RingPoint(start, d, k);
    var before := RingHits(dm, rows, cols, start, d, threshold, k);
    assert p !in before by {
      forall j | 0 <= j < k
        ensures RingPoint(start, d, j) != p
      {
        RingDistinct(start, d, j, k);
      }
    }
    if Hit(dm, rows, cols, p, threshold) {
      assert RingHits(dm, rows, cols, start, d, threshold, k + 1) == before + {p};
    } else {
      assert RingHits(dm, rows, cols, start, d, threshold, k + 1) == before;
    }
  }

  /** Cheats shorter than `d + 1` are those shorter than `d` and the hits
    * on the whole ring of radius `d`, which are disjoint from them. */
  lemma WithinStep(dm: seq<int>, rows: int, cols: int, start: Point, minSaved: int, d: int)
    requires |dm| == rows * cols && d >= 2
    ensures |Within(dm, rows, cols, start, minSaved, d + 1)| ==
      |Within(dm, rows, cols, start, minSaved, d)| + |RingHits(dm, rows, cols, start, d, minSaved + d, 4 * d)|
  {
    var lower := Within(dm, rows, cols, start, minSaved, d);
    var ring := RingHits(dm, rows, cols, start, d, minSaved + d, 4 * d);
    var upper := Within(dm, rows, cols, start, minSaved, d + 1);
    forall p | p in ring
      ensures p in upper && p !in lower
    {
      var j :| 0 <= j < 4 * d && Hit(dm, rows, cols, RingPoint(start, d, j), minSaved + d) && p == RingPoint(start, d, j);
      RingOnRadius(start, d, j);
    }
    forall p | p in upper
      ensures p in lower || p in ring
    {
      if Taxicab(p, start) == d {
        RingCovers(start, d, p);
      }
    }
    assert upper == lower + ring;
    assert lower * ring == {};
  }

  /** Where the distance loop stops, its cheats are exactly the counted
    * ones. */
  lemma WithinAll(dm: seq<int>, rows: int, cols: int, start: Point, minSaved: int, d: int)
    requires |dm| == rows * cols && 2 <= d <= MAX_CHEAT_LENGTH + 1
    requires d == 2 || d <= minSaved
    requires d > MAX_CHEAT_LENGTH || d >= minSaved
    ensures Within(dm, rows, cols, start, minSaved, d) == Shortcuts(dm, rows, cols, start, minSaved)
  {
  }

  /** One pass of the distance loop of `count_shortcuts_from_point`: the
    * ring of radius `distance` around `start`, and the number of its cells
    * that are hits for `minPointForThisDistance`. */
  method CountRingHits(dm: array<int>, rows: int, cols: int, start: Point, distance: int, minPointForThisDistance: int)
    returns (hits: int)
    requires dm.Length == rows * cols && distance >= 0
    ensures hits == |RingHits(dm[..], rows, cols, start, distance, minPointForThisDistance, 4 * distance)|
  {
    var pointsToCheck, pointsToCheckSize := FindPointsAtTaxicabDistance(start, distance);
    ghost var ds := dm[..];
    hits := 0;
    var i := 0;
    while i < pointsToCheckSize
      invariant 0 <= i <= pointsToCheckSize
      modifies {}
      invariant hits == |RingHits(ds, rows, cols, start, distance, minPointForThisDistance, i)|
    {
      var p := pointsToCheck[i];
      RingHitsStep(ds, rows, cols, start, distance, minPointForThisDistance, i);
      assert p == RingPoint(start, distance, i);
      if p.row >= 0 && p.col >= 0 && p.row < rows && p.col < cols &&
         dm[Idx(p.row, p.col, rows, cols)] >= minPointForThisDistance {
        assert Hit(ds, rows, cols, p, minPointForThisDistance);
        hits := hits + 1;
      } else {
        assert !Hit(ds, rows, cols, p, minPointForThisDistance);
      }
      i := i + 1;
    }
  }

  /** `count_shortcuts_from_point`: the number of counted cheats from
    * `start`, one per landing cell. */
  method CountShortcutsFromPoint(dm: array<int>, rows: int, cols: int, start: Point, minSaved: int)
    returns (shortcutsFromPoint: int)
    requires dm.Length == rows * cols
    ensures shortcutsFromPoint == |Shortcuts(dm[..], rows, cols, start, minSaved)|
  {
    ghost var ds := dm[..];
    shortcutsFromPoint := 0;
    var distance := 2;
    while distance <= MAX_CHEAT_LENGTH && distance < minSaved
      invariant 2 <= distance <= MAX_CHEAT_LENGTH + 1 && (distance == 2 || distance <= minSaved)
      invariant shortcutsFromPoint == |Within(ds, rows, cols, start, minSaved, distance)|
    {
      var minPointForThisDistance := minSaved + distance;
      var hits := CountRingHits(dm, rows, cols, start, distance, minPointForThisDistance);
      WithinStep(ds, rows, cols, start, minSaved, distance);
      shortcutsFromPoint := shortcutsFromPoint + hits;
      distance := distance + 1;
    }
    WithinAll(ds, rows, cols, start, minSaved, distance);
  }

  // ----- The distance map and the helpful cheats -----

  /** The distance map after writing `k` at `path[k]`, for each `k` in
    * order, over `m`. */
  ghost function Stamp(m: seq<int>, path: seq<Point>, rows: int, cols: int): (r: seq<int>)
    requires |m| == rows * cols && forall k :: 0 <= k < |path| ==> InGrid(path[k], rows, cols)
    ensures |r| == |m|
    decreases |path|
  {
    if |path| == 0 then m
    else
      var last := path[|path| - 1];
      assert InGrid(last, rows, cols);
      Stamp(m, path[..|path| - 1], rows, cols)[Idx(last.row, last.col, rows, cols) := |path| - 1]
  }

  /** On a path that visits no cell twice, the map holds each path cell's
    * index, and the old value everywhere else. */
  lemma {:induction false} StampRead(m: seq<int>, path: seq<Point>, rows: int, cols: int, p: Point)
    requires |m| == rows * cols && forall k :: 0 <= k < |path| ==> InGrid(path[k], rows, cols)
    requires forall i, j :: 0 <= i < j < |path| ==> path[i] != path[j]
    requires InGrid(p, rows, cols)
    ensures forall j :: 0 <= j < |path| && path[j] == p ==> Stamp(m, path, rows, cols)[Idx(p.row, p.col, rows, cols)] == j
    ensures (forall j :: 0 <= j < |path| ==> path[j] != p) ==>
      Stamp(m, path, rows, cols)[Idx(p.row, p.col, rows, cols)] == m[Idx(p.row, p.col, rows, cols)]
    decreases |path|
  {
    if |path| > 0 {
      var last := path[|path| - 1];
      StampRead(m, path[..|path| - 1], rows, cols, p);
      IdxInjective(p.row, p.col, last.row, last.col, rows, cols);
    }
  }

  /** A helpful cheat from path index `i` to path index `j`: the cells are
    * 2 to MAX_CHEAT_LENGTH grid steps apart, and the cheat is at least
    * MIN_SAVE steps shorter than the track between them. */
  ghost predicate HelpfulCheat(path: seq<Point>, i: int, j: int)
    requires 0 <= i < |path| && 0 <= j < |path|
  {
    var d := Taxicab(path[i], path[j]);
    2 <= d <= MAX_CHEAT_LENGTH && j - i - d >= MIN_SAVE
  }

  /** The helpful cheats starting at one of the first `k` path cells. */
  ghost function CheatsFrom(path: seq<Point>, k: int): set<(int, int)> {
    set i, j | 0 <= i < k && i < |path| && 0 <= j < |path| && HelpfulCheat(path, i, j) :: (i, j)
  }

  /** All helpful cheats along the path. */
  ghost function HelpfulCheats(path: seq<Point>): set<(int, int)> {
    CheatsFrom(path, |path|)
  }

  /** The helpful cheats from path index `i` to an index below `n`. */
  ghost function CheatsAt(path: seq<Point>, i: int, n: int): set<(int, int)>
    requires 0 <= i < |path|
  {
    set j | 0 <= j < n && j < |path| && HelpfulCheat(path, i, j) :: (i, j)
  }

  /** The cells those cheats land on. */
  ghost function LandingsAt(path: seq<Point>, i: int, n: int): set<Point>
    requires 0 <= i < |path|
  {
    set j | 0 <= j < n && j < |path| && HelpfulCheat(path, i, j) :: path[j]
  }

  /** One more candidate index adds one cheat when it is a helpful cheat,
    * and none otherwise. */
  lemma CheatsAtStep(path: seq<Point>, i: int, n: int)
    requires 0 <= i < |path| && 0 < n <= |path|
    ensures |CheatsAt(path, i, n)| == |CheatsAt(path, i, n - 1)| + if HelpfulCheat(path, i, n - 1) then 1 else 0
  {
    var j := n - 1;
    var cheats, cheats' := CheatsAt(path, i, n - 1), CheatsAt(path, i, n);
    forall x | x in cheats'
      ensures x in cheats || (HelpfulCheat(path, i, j) && x == (i, j))
    {
      var j' :| 0 <= j' < n && j' < |path| && HelpfulCheat(path, i, j') && x == (i, j');
      if j' < j {
        assert x in cheats;
      }
    }
    forall x | x in cheats
      ensures x in cheats' && x != (i, j)
    {
      var j' :| 0 <= j' < n - 1 && HelpfulCheat(path, i, j') && x == (i, j');
    }
    if HelpfulCheat(path, i, j) {
      assert (i, j) in cheats';
      assert cheats' == cheats + {(i, j)};
    } else {
      assert cheats' == cheats;
    }
  }

  /** One more candidate index adds one landing cell when it is a helpful
    * cheat, and none otherwise, as the path visits no cell twice. */
  lemma LandingsAtStep(path: seq<Point>, i: int, n: int)
    requires 0 <= i < |path| && 0 < n <= |path|
    requires forall a, b :: 0 <= a < b < |path| ==> path[a] != path[b]
    ensures |LandingsAt(path, i, n)| == |LandingsAt(path, i, n - 1)| + if HelpfulCheat(path, i, n - 1) then 1 else 0
  {
    var landings, landings' := LandingsAt(path, i, n - 1), LandingsAt(path, i, n);
    LandingsNew(path, i, n);
    LandingsOld(path, i, n);
    if HelpfulCheat(path, i, n - 1) {
      assert path[n - 1] in landings';
      assert landings' == landings + {path[n - 1]};
    } else {
      assert landings' == landings;
    }
  }

  /** A landing among the first `n` candidates is one among the first
    * `n - 1`, or is candidate `n - 1` itself. */
  lemma LandingsNew(path: seq<Point>, i: int, n: int)
    requires 0 <= i < |path| && 0 < n <= |path|
    ensures forall q :: q in LandingsAt(path, i, n) ==>
      q in LandingsAt(path, i, n - 1) || (HelpfulCheat(path, i, n - 1) && q == path[n - 1])
  {
    forall q | q in LandingsAt(path, i, n)
      ensures q in LandingsAt(path, i, n - 1) || (HelpfulCheat(path, i, n - 1) && q == path[n - 1])
    {
      var j' :| 0 <= j' < n && j' < |path| && HelpfulCheat(path, i, j') && q == path[j'];
      if j' < n - 1 {
        assert q in LandingsAt(path, i, n - 1);
      }
    }
  }

  /** The earlier landings stay, and none of them is cell `n - 1`. */
  lemma LandingsOld(path: seq<Point>, i: int, n: int)
    requires 0 <= i < |path| && 0 < n <= |path|
    requires forall a, b :: 0 <= a < b < |path| ==> path[a] != path[b]
    ensures forall q :: q in LandingsAt(path, i, n - 1) ==> q in LandingsAt(path, i, n) && q != path[n - 1]
  {
    forall q | q in LandingsAt(path, i, n - 1)
      ensures q in LandingsAt(path, i, n) && q != path[n - 1]
    {
      var j' :| 0 <= j' < n - 1 && HelpfulCheat(path, i, j') && q == path[j'];
    }
  }

  /** On a path that visits no cell twice, each cheat lands on its own
    * cell. */
  lemma {:induction false} LandingsCount(path: seq<Point>, i: int, n: int)
    requires 0 <= i < |path| && 0 <= n <= |path|
    requires forall a, b :: 0 <= a < b < |path| ==> path[a] != path[b]
    ensures |LandingsAt(path, i, n)| == |CheatsAt(path, i, n)|
  {
    if n > 0 {
      LandingsCount(path, i, n - 1);
      CheatsAtStep(path, i, n);
      LandingsAtStep(path, i, n);
    } else {
      assert LandingsAt(path, i, n) == {};
      assert CheatsAt(path, i, n) == {};
    }
  }

  /** The cells a path index's shortcuts land on, read through the
    * distance map of the path, are the landings of its helpful cheats. */
  lemma ShortcutsOnPath(dm: seq<int>, rows: int, cols: int, path: seq<Point>, i: int)
    requires forall k :: 0 <= k < |path| ==> InGrid(path[k], rows, cols)
    requires forall a, b :: 0 <= a < b < |path| ==> path[a] != path[b]
    requires rows * cols >= 0 && dm == Stamp(seq(rows * cols, _ => 0), path, rows, cols)
    requires 0 <= i < |path|
    ensures Shortcuts(dm, rows, cols, path[i], i + MIN_SAVE) == LandingsAt(path, i, |path|)
  {
    var zeros := seq(rows * cols, _ => 0);
    forall p | p in Shortcuts(dm, rows, cols, path[i], i + MIN_SAVE)
      ensures p in LandingsAt(path, i, |path|)
    {
      StampRead(zeros, path, rows, cols, p);
      var j :| 0 <= j < |path| && path[j] == p;
      assert HelpfulCheat(path, i, j);
    }
    forall j | 0 <= j < |path| && HelpfulCheat(path, i, j)
      ensures path[j] in Shortcuts(dm, rows, cols, path[i], i + MIN_SAVE)
    {
      StampRead(zeros, path, rows, cols, path[j]);
      assert Shortcut(dm, rows, cols, path[i], i + MIN_SAVE, path[j]);
    }
  }

  /** The shortcuts counted from path index `i` are its helpful cheats. */
  lemma CheatsStep(dm: seq<int>, rows: int, cols: int, path: seq<Point>, i: int)
    requires forall k :: 0 <= k < |path| ==> InGrid(path[k], rows, cols)
    requires forall a, b :: 0 <= a < b < |path| ==> path[a] != path[b]
    requires rows * cols >= 0 && dm == Stamp(seq(rows * cols, _ => 0), path, rows, cols)
    requires 0 <= i < |path|
    ensures |CheatsFrom(path, i + 1)| == |CheatsFrom(path, i)| + |Shortcuts(dm, rows, cols, path[i], i + MIN_SAVE)|
  {
    ShortcutsOnPath(dm, rows, cols, path, i);
    LandingsCount(path, i, |path|);
    assert CheatsFrom(path, i + 1) == CheatsFrom(path, i) + CheatsAt(path, i, |path|);
    assert CheatsFrom(path, i) * CheatsAt(path, i, |path|) == {};
  }

  /** No helpful cheat starts within MIN_SAVE + 2 cells of the end. */
  lemma CheatsAll(path: seq<Point>, i: int)
    requires i >= 0 && i + MIN_SAVE + 2 >= |path|
    ensures CheatsFrom(path, i) == HelpfulCheats(path)
  {
  }

  /** The cells of a path found by the search lie on the grid and are
    * visited once each. */
  lemma RouteCells(route: seq<Point>, start: Point, end: Point, open: set<Point>, rows: int, cols: int)
    requires InGrid(start, rows, cols) && forall p :: p in open ==> p == start || InGrid(p, rows, cols)
    requires |route| > 0 ==> BestPath(route, start, end, open)
    ensures forall k :: 0 <= k < |route| ==> InGrid(route[k], rows, cols)
    ensures forall a, b :: 0 <= a < b < |route| ==> route[a] != route[b]
  {
    if |route| > 0 {
      ShortestIsSimple(route, start, open);
    }
  }

  /** The distance-map fill of `count_helpful_cheats`: a zeroed map of the
    * grid in which each cell of the best path holds its index. */
  method FillDistanceMap(bestPath: array<Point>, bestPathSize: int, rows: int, cols: int) returns (distanceMap: array<int>)
    requires bestPathSize == bestPath.Length && rows >= 0 && cols >= 0
    requires forall k :: 0 <= k < bestPathSize ==> InGrid(bestPath[k], rows, cols)
    requires forall a, b :: 0 <= a < b < bestPathSize ==> bestPath[a] != bestPath[b]
    ensures fresh(distanceMap) && distanceMap.Length == rows * cols
    ensures distanceMap[..] == Stamp(seq(rows * cols, _ => 0), bestPath[..], rows, cols)
    ensures forall k :: 0 <= k < bestPathSize ==>
      distanceMap[Idx(bestPath[k].row, bestPath[k].col, rows, cols)] == k
    ensures forall r, c :: 0 <= r < rows && 0 <= c < cols && Point(r, c) !in bestPath[..] ==>
      distanceMap[Idx(r, c, rows, cols)] == 0
  {
    ghost var zeros := seq(rows * cols, _ => 0);
    distanceMap := new int[rows * cols](_ => 0);
    assert distanceMap[..] == zeros;
    var i := 0;
    while i < bestPathSize
      invariant 0 <= i <= bestPathSize
      invariant distanceMap[..] == Stamp(zeros, bestPath[..i], rows, cols)
      modifies distanceMap
    {
      var p := bestPath[i];
      assert bestPath[..i + 1][..i] == bestPath[..i];
      distanceMap[Idx(p.row, p.col, rows, cols)] := i;
      i := i + 1;
    }
    assert bestPath[..bestPathSize] == bestPath[..];
    forall k | 0 <= k < bestPathSize
      ensures distanceMap[Idx(bestPath[k].row, bestPath[k].col, rows, cols)] == k
    {
      StampRead(zeros, bestPath[..], rows, cols, bestPath[k]);
    }
    forall r, c | 0 <= r < rows && 0 <= c < cols && Point(r, c) !in bestPath[..]
      ensures distanceMap[Idx(r, c, rows, cols)] == 0
    {
      StampRead(zeros, bestPath[..], rows, cols, Point(r, c));
    }
  }

  /** The counting loop of `count_helpful_cheats`: the shortcuts from each
    * path cell early enough to save MIN_SAVE steps add up to the helpful
    * cheats along the path. */
  method SumShortcuts(distanceMap: array<int>, rows: int, cols: int, bestPath: array<Point>, bestPathSize: int)
    returns (helpfulCheats: int)
    requires bestPathSize == bestPath.Length && rows >= 0 && cols >= 0
    requires forall k :: 0 <= k < bestPathSize ==> InGrid(bestPath[k], rows, cols)
    requires forall a, b :: 0 <= a < b < bestPathSize ==> bestPath[a] != bestPath[b]
    requires distanceMap.Length == rows * cols
    requires distanceMap[..] == Stamp(seq(rows * cols, _ => 0), bestPath[..], rows, cols)
    ensures helpfulCheats == |HelpfulCheats(bestPath[..])|
  {
    ghost var route := bestPath[..];
    helpfulCheats := 0;
    var i := 0;
    while i + MIN_SAVE + 2 < bestPathSize
      invariant 0 <= i
      invariant helpfulCheats == |CheatsFrom(route, i)|
    {
      var shortcuts := CountShortcutsFromPoint(distanceMap, rows, cols, bestPath[i], i + MIN_SAVE);
      CheatsStep(distanceMap[..], rows, cols, route, i);
      helpfulCheats := helpfulCheats + shortcuts;
      i := i + 1;
    }
    CheatsAll(route, i);
  }

  /** `count_helpful_cheats`: the best path, its distance map, and the
    * shortcuts from each path cell early enough to save MIN_SAVE steps;
    * the count is the number of helpful cheats along that path.  The
    * path comes from `find_best_path` as written, so it is empty when
    * the start is the end. */
  method CountHelpfulCheats(grid: array2<char>, start: Point, end: Point) returns (helpfulCheats: int, ghost route: seq<Point>)
    requires InGrid(start, grid.Length0, grid.Length1)
    modifies grid
    ensures |route| > 0 ==> BestPath(route, start, end, old(OpenCells(grid, start)))
    ensures |route| == 0 <==> start == end || NoWalk(end, start, old(OpenCells(grid, start)))
    ensures helpfulCheats == |HelpfulCheats(route)|
  {
    ghost var open := OpenCells(grid, start);
    var bestPath, bestPathSize := FindBestPath(grid, start, end);
    route := bestPath[..];
    var rows, cols := grid.Length0, grid.Length1;
    RouteCells(route, start, end, open, rows, cols);
    var distanceMap := FillDistanceMap(bestPath, bestPathSize, rows, cols);
    helpfulCheats := SumShortcuts(distanceMap, rows, cols, bestPath, bestPathSize);
  }
}
