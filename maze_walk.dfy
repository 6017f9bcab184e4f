// Routes of the reindeer through the maze of day 16.  A state is a cell and
// a heading; moving one cell ahead costs MOVE_COST and a quarter turn on the
// spot costs TURN_COST.  The frontier argument makes the score-keyed heap
// search return cheapest routes: a state popped with the least queued score
// cannot be reached more cheaply.

module MazeWalk {
  import opened MinHeap
  import opened GridWalk

  const MOVE_COST: int := 1
  const TURN_COST: int := 1000

  const EAST: int := 0
  const NORTH: int := 1
  const WEST: int := 2
  const SOUTH: int := 3

  datatype State = State(row: int, col: int, dir: int)

  function StateOf(e: Entry): State {
    State(e.row, e.col, e.dir)
  }

  function CellOfState(s: State): Point {
    Point(s.row, s.col)
  }

  /** One cell on in the heading: east is the next column, north the
    * previous row, west the previous column, south the next row. */
  function Ahead(s: State): State {
    if s.dir == EAST then State(s.row, s.col + 1, s.dir)
    else if s.dir == NORTH then State(s.row - 1, s.col, s.dir)
    else if s.dir == WEST then State(s.row, s.col - 1, s.dir)
    else State(s.row + 1, s.col, s.dir)
  }

  /** `(dir + 1) & 0b11`: on a two's-complement int, keeping the low two
    * bits is the remainder modulo 4. */
  function TurnLeft(d: int): (r: int)
    ensures 0 <= r < 4
  {
    (d + 1) % 4
  }

  /** `(dir - 1) & 0b11`, so that east turns right to south. */
  function TurnRight(d: int): (r: int)
    ensures 0 <= r < 4
  {
    (d - 1) % 4
  }

  /** The two turns undo each other and lead to two other headings. */
  lemma Turns(d: int)
    requires 0 <= d < 4
    ensures TurnRight(TurnLeft(d)) == d && TurnLeft(TurnRight(d)) == d
    ensures TurnLeft(d) != d && TurnRight(d) != d && TurnLeft(d) != TurnRight(d)
  {
  }

  /** A single move of the reindeer: one cell ahead onto an open cell, or
    * a quarter turn either way. */
  ghost predicate Move(a: State, b: State, open: set<Point>) {
    0 <= a.dir < 4 &&
    ((b == Ahead(a) && CellOfState(b) in open) ||
     b == State(a.row, a.col, TurnLeft(a.dir)) ||
     b == State(a.row, a.col, TurnRight(a.dir)))
  }

  /** The price of a move: turning keeps the cell. */
  function Cost(a: State, b: State): int {
    if a.row == b.row && a.col == b.col then TURN_COST else MOVE_COST
  }

  ghost predicate MoveAt(w: seq<State>, i: int, open: set<Point>)
    requires 0 <= i < |w| - 1
  {
    Move(w[i], w[i + 1], open)
  }

  /** A route from `s0`, one move at a time. */
  ghost predicate IsRoute(w: seq<State>, s0: State, open: set<Point>) {
    |w| >= 1 && w[0] == s0 && forall i :: 0 <= i < |w| - 1 ==> MoveAt(w, i, open)
  }

  /** The total price of the moves of a route; every move costs at least
    * one. */
  function RouteCost(w: seq<State>): (c: int)
    ensures c >= if |w| <= 1 then 0 else |w| - 1
    decreases |w|
  {
    if |w| <= 1 then 0 else RouteCost(w[..|w| - 1]) + Cost(w[|w| - 2], w[|w| - 1])
  }

  /** `s` can be reached from `s0` at price `c`. */
  ghost predicate Reachable(s: State, c: int, s0: State, open: set<Point>) {
    exists w :: IsRoute(w, s0, open) && w[|w| - 1] == s && RouteCost(w) == c
  }

  lemma ReachStart(s0: State, open: set<Point>)
    ensures Reachable(s0, 0, s0, open)
  {
    assert IsRoute([s0], s0, open);
  }

  /** A route extends by one move at that move's price. */
  lemma ReachStep(a: State, c: int, b: State, s0: State, open: set<Point>)
    requires Reachable(a, c, s0, open) && Move(a, b, open)
    ensures Reachable(b, c + Cost(a, b), s0, open)
  {
    var w :| IsRoute(w, s0, open) && w[|w| - 1] == a && RouteCost(w) == c;
    var w' := w + [b];
    forall i | 0 <= i < |w'| - 1
      ensures MoveAt(w', i, open)
    {
      if i < |w| - 1 {
        assert MoveAt(w, i, open);
      }
    }
    assert w'[..|w'| - 1] == w;
    assert IsRoute(w', s0, open);
  }

  /** The recorded score of each found state is a lower bound on every
    * route to it. */
  ghost predicate Settled(visited: set<State>, dist: map<State, int>, s0: State, open: set<Point>) {
    forall v :: v in visited ==> v in dist && forall k :: Reachable(v, k, s0, open) ==> dist[v] <= k
  }

  /** Each state one move from a found state and not found itself is
    * queued at no more than the found state's score plus the move's price. */
  ghost predicate Frontier(visited: set<State>, dist: map<State, int>, queue: seq<Entry>, open: set<Point>) {
    forall v, u :: v in visited && v in dist && Move(v, u, open) && u !in visited ==>
      exists e :: e in queue && StateOf(e) == u && e.key <= dist[v] + Cost(v, u)
  }

  /** A route from a found `s0` to a state not found crosses the frontier
    * at no more than the route's price. */
  lemma {:induction false} RoutesCrossFrontier(w: seq<State>, visited: set<State>, dist: map<State, int>,
                                               queue: seq<Entry>, s0: State, open: set<Point>)
    requires IsRoute(w, s0, open) && s0 in visited && w[|w| - 1] !in visited
    requires Settled(visited, dist, s0, open) && Frontier(visited, dist, queue, open)
    ensures exists e :: e in queue && StateOf(e) !in visited && e.key <= RouteCost(w)
    decreases |w|
  {
    var j := |w| - 1;
    assert j >= 1;
    var prefix := w[..j];
    assert IsRoute(prefix, s0, open) by {
      forall i | 0 <= i < |prefix| - 1
        ensures MoveAt(prefix, i, open)
      {
        assert MoveAt(w, i, open);
      }
    }
    assert RouteCost(w) == RouteCost(prefix) + Cost(w[j - 1], w[j]);
    if w[j - 1] in visited {
      assert Reachable(w[j - 1], RouteCost(prefix), s0, open);
      assert MoveAt(w, j - 1, open);
      var e :| e in queue && StateOf(e) == w[j] && e.key <= dist[w[j - 1]] + Cost(w[j - 1], w[j]);
    } else {
      RoutesCrossFrontier(prefix, visited, dist, queue, s0, open);
    }
  }

  /** No route to a state not found is cheaper than the least score
    * queued for a state not found. */
  lemma NoCheaperRoute(s: State, key: int, visited: set<State>, dist: map<State, int>,
                       queue: seq<Entry>, s0: State, open: set<Point>)
    requires s0 in visited && s !in visited
    requires Settled(visited, dist, s0, open) && Frontier(visited, dist, queue, open)
    requires forall e :: e in queue && StateOf(e) !in visited ==> key <= e.key
    ensures forall k :: Reachable(s, k, s0, open) ==> key <= k
  {
    forall k | Reachable(s, k, s0, open)
      ensures key <= k
    {
      var w :| IsRoute(w, s0, open) && w[|w| - 1] == s && RouteCost(w) == k;
      RoutesCrossFrontier(w, visited, dist, queue, s0, open);
    }
  }

  /** With nothing queued, no state outside the found ones is reachable. */
  lemma NoRoute(s: State, visited: set<State>, dist: map<State, int>, s0: State, open: set<Point>)
    requires s0 in visited && s !in visited
    requires Settled(visited, dist, s0, open) && Frontier(visited, dist, [], open)
    ensures forall k :: !Reachable(s, k, s0, open)
  {
    forall k | Reachable(s, k, s0, open)
      ensures false
    {
      var w :| IsRoute(w, s0, open) && w[|w| - 1] == s && RouteCost(w) == k;
      RoutesCrossFrontier(w, visited, dist, [], s0, open);
    }
  }

  /** The frontier survives reordering the queue and adding to it. */
  lemma FrontierPermute(visited: set<State>, dist: map<State, int>, q: seq<Entry>, q': seq<Entry>, open: set<Point>)
    requires Frontier(visited, dist, q, open) && multiset(q) <= multiset(q')
    ensures Frontier(visited, dist, q', open)
  {
    forall v, u | v in visited && v in dist && Move(v, u, open) && u !in visited
      ensures exists e :: e in q' && StateOf(e) == u && e.key <= dist[v] + Cost(v, u)
    {
      var e :| e in q && StateOf(e) == u && e.key <= dist[v] + Cost(v, u);
      assert e in multiset(q);
    }
  }

  /** Finding the state of the move in hand `m` and queueing each of its
    * successors not found at `m`'s score plus the price keeps the
    * frontier; a state found before keeps its score. */
  lemma FrontierExpand(visited: set<State>, dist: map<State, int>, q: seq<Entry>, m: Entry,
                       pushed: seq<Entry>, q': seq<Entry>, open: set<Point>)
    requires Frontier(visited, dist, q + [m], open)
    requires StateOf(m) in visited ==> StateOf(m) in dist
    requires forall u :: Move(StateOf(m), u, open) && u !in visited + {StateOf(m)} ==>
      exists e :: e in pushed && StateOf(e) == u && e.key <= m.key + Cost(StateOf(m), u)
    requires multiset(q') == multiset(q) + multiset(pushed)
    ensures Frontier(visited + {StateOf(m)},
                     if StateOf(m) in visited then dist else dist[StateOf(m) := m.key], q', open)
  {
    var s := StateOf(m);
    var visited' := visited + {s};
    var dist' := if s in visited then dist else dist[s := m.key];
    forall v, u | v in visited' && v in dist' && Move(v, u, open) && u !in visited'
      ensures exists e :: e in q' && StateOf(e) == u && e.key <= dist'[v] + Cost(v, u)
    {
      if v == s && s !in visited {
        var e :| e in pushed && StateOf(e) == u && e.key <= m.key + Cost(s, u);
        assert e in multiset(q');
      } else {
        assert v in visited && dist'[v] == dist[v];
        var e :| e in q + [m] && StateOf(e) == u && e.key <= dist[v] + Cost(v, u);
        assert e != m;
        assert e in multiset(q');
      }
    }
  }
}
