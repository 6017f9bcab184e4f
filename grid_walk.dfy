// Walks on a grid of open cells, and the frontier argument that makes the
// step-keyed heap searches return shortest walks: a cell popped with the
// least queued key cannot be reached in fewer steps.

module GridWalk {
  import opened MinHeap

  datatype Point = Point(row: int, col: int)

  function CellOf(e: Entry): Point {
    Point(e.row, e.col)
  }

  predicate Adjacent(p: Point, q: Point) {
    (p.row == q.row && (p.col - q.col == 1 || q.col - p.col == 1)) ||
    (p.col == q.col && (p.row - q.row == 1 || q.row - p.row == 1))
  }

  /** Cells `i` and `i + 1` of the walk are neighbours. */
  predicate StepAt(w: seq<Point>, i: int)
    requires 0 <= i < |w| - 1
  {
    Adjacent(w[i], w[i + 1])
  }

  /** A walk from `start` through `open` cells, one step at a time. */
  ghost predicate IsWalk(w: seq<Point>, start: Point, open: set<Point>) {
    |w| >= 1 && w[0] == start &&
    (forall i :: 0 <= i < |w| ==> w[i] in open) &&
    (forall i :: 0 <= i < |w| - 1 ==> StepAt(w, i))
  }

  /** `p` can be reached from `start` in exactly `steps` steps. */
  ghost predicate Reachable(p: Point, steps: int, start: Point, open: set<Point>) {
    exists w :: IsWalk(w, start, open) && |w| == steps + 1 && w[steps] == p
  }

  lemma ReachStart(start: Point, open: set<Point>)
    requires start in open
    ensures Reachable(start, 0, start, open)
  {
    assert IsWalk([start], start, open);
  }

  lemma ReachStep(p: Point, steps: int, q: Point, start: Point, open: set<Point>)
    requires Reachable(p, steps, start, open) && q in open && Adjacent(p, q)
    ensures Reachable(q, steps + 1, start, open)
  {
    var w :| IsWalk(w, start, open) && |w| == steps + 1 && w[steps] == p;
    var w' := w + [q];
    forall i | 0 <= i < |w'| - 1
      ensures StepAt(w', i)
    {
      if i < |w| - 1 {
        assert StepAt(w, i);
      }
    }
    assert IsWalk(w', start, open);
  }

  /** Every walk begins at an open `start`. */
  lemma WalkStartsOpen(p: Point, steps: int, start: Point, open: set<Point>)
    requires Reachable(p, steps, start, open)
    ensures start in open && steps >= 0
  {
    var w :| IsWalk(w, start, open) && |w| == steps + 1 && w[steps] == p;
    assert w[0] in open;
  }

  /** `p` is reached in `steps` steps and in no fewer. */
  ghost predicate IsShortest(p: Point, steps: int, start: Point, open: set<Point>) {
    Reachable(p, steps, start, open) && forall k :: Reachable(p, k, start, open) ==> steps <= k
  }

  /** No walk from `start` reaches `p`. */
  ghost predicate NoWalk(p: Point, start: Point, open: set<Point>) {
    forall k :: !Reachable(p, k, start, open)
  }

  /** The recorded distance of each visited cell is a lower bound on every
    * walk to it. */
  ghost predicate Settled(visited: set<Point>, dist: map<Point, int>, start: Point, open: set<Point>) {
    forall v :: v in visited ==> v in dist && forall k :: Reachable(v, k, start, open) ==> dist[v] <= k
  }

  /** Each open, unvisited neighbour of a visited cell is queued with a key
    * at most one more than the visited cell's distance. */
  ghost predicate Frontier(visited: set<Point>, dist: map<Point, int>, queue: seq<Entry>, open: set<Point>) {
    forall v, u :: v in visited && v in dist && u in open && Adjacent(v, u) && u !in visited ==>
      exists e :: e in queue && CellOf(e) == u && e.key <= dist[v] + 1
  }

  /** A walk from a visited start to an unvisited cell crosses the
    * frontier no later than its own length. */
  lemma {:induction false} WalksCrossFrontier(w: seq<Point>, visited: set<Point>, dist: map<Point, int>,
                                               queue: seq<Entry>, start: Point, open: set<Point>)
    requires IsWalk(w, start, open) && start in visited && w[|w| - 1] !in visited
    requires Settled(visited, dist, start, open) && Frontier(visited, dist, queue, open)
    ensures exists e :: e in queue && CellOf(e) !in visited && e.key <= |w| - 1
    decreases |w|
  {
    var j := |w| - 1;
    assert j >= 1;
    var prefix := w[..j];
    assert IsWalk(prefix, start, open) by {
      forall i | 0 <= i < |prefix| - 1
        ensures StepAt(prefix, i)
      {
        assert StepAt(w, i);
      }
    }
    if w[j - 1] in visited {
      assert Reachable(w[j - 1], j - 1, start, open);
      assert StepAt(w, j - 1);
      assert w[j] in open;
      var e :| e in queue && CellOf(e) == w[j] && e.key <= dist[w[j - 1]] + 1;
    } else {
      WalksCrossFrontier(prefix, visited, dist, queue, start, open);
    }
  }

  /** No walk to an unvisited `p` is shorter than the least key queued;
    * with nothing unvisited queued, no walk reaches `p` at all. */
  lemma NoShorterWalk(p: Point, key: int, visited: set<Point>, dist: map<Point, int>,
                      queue: seq<Entry>, start: Point, open: set<Point>)
    requires start in visited || start !in open
    requires p !in visited
    requires Settled(visited, dist, start, open) && Frontier(visited, dist, queue, open)
    requires forall e :: e in queue && CellOf(e) !in visited ==> key <= e.key
    ensures forall k :: Reachable(p, k, start, open) ==> key <= k
  {
    forall k | Reachable(p, k, start, open)
      ensures key <= k
    {
      var w :| IsWalk(w, start, open) && |w| == k + 1 && w[k] == p;
      assert w[0] in open;
      WalksCrossFrontier(w, visited, dist, queue, start, open);
    }
  }

  /** With no unvisited cell queued, an unvisited cell is unreachable. */
  lemma Unreachable(p: Point, visited: set<Point>, dist: map<Point, int>,
                    queue: seq<Entry>, start: Point, open: set<Point>)
    requires start in visited || start !in open
    requires p !in visited
    requires Settled(visited, dist, start, open) && Frontier(visited, dist, queue, open)
    requires forall e :: e in queue ==> CellOf(e) in visited
    ensures NoWalk(p, start, open)
  {
    forall k | Reachable(p, k, start, open)
      ensures false
    {
      var w :| IsWalk(w, start, open) && |w| == k + 1 && w[k] == p;
      assert w[0] in open;
      WalksCrossFrontier(w, visited, dist, queue, start, open);
    }
  }

  /** Settling one more cell at a distance that bounds every walk to it. */
  lemma SettledAdd(visited: set<Point>, dist: map<Point, int>, v: Point, key: int, start: Point, open: set<Point>)
    requires Settled(visited, dist, start, open)
    requires forall k :: Reachable(v, k, start, open) ==> key <= k
    ensures Settled(visited + {v}, dist[v := key], start, open)
  {
  }

  /** The frontier survives reordering the queue and adding to it. */
  lemma FrontierPermute(visited: set<Point>, dist: map<Point, int>, q: seq<Entry>, q': seq<Entry>, open: set<Point>)
    requires Frontier(visited, dist, q, open) && multiset(q) <= multiset(q')
    ensures Frontier(visited, dist, q', open)
  {
    forall v, u | v in visited && v in dist && u in open && Adjacent(v, u) && u !in visited
      ensures exists e :: e in q' && CellOf(e) == u && e.key <= dist[v] + 1
    {
      var e :| e in q && CellOf(e) == u && e.key <= dist[v] + 1;
      assert e in multiset(q);
    }
  }

  /** A move popped onto a visited or blocked cell was not needed on the
    * frontier. */
  lemma FrontierDrop(visited: set<Point>, dist: map<Point, int>, q: seq<Entry>, m: Entry, open: set<Point>)
    requires Frontier(visited, dist, q + [m], open)
    requires CellOf(m) in visited || CellOf(m) !in open
    ensures Frontier(visited, dist, q, open)
  {
    forall v, u | v in visited && v in dist && u in open && Adjacent(v, u) && u !in visited
      ensures exists e :: e in q && CellOf(e) == u && e.key <= dist[v] + 1
    {
      var e :| e in q + [m] && CellOf(e) == u && e.key <= dist[v] + 1;
      if e != m {
        assert e in q;
      }
    }
  }

  /** Visiting the cell of the popped move `m` and queueing its open,
    * unvisited neighbours one step further keeps the frontier. */
  lemma FrontierVisit(visited: set<Point>, dist: map<Point, int>, q: seq<Entry>, m: Entry,
                      pushed: seq<Entry>, q': seq<Entry>, open: set<Point>)
    requires Frontier(visited, dist, q + [m], open)
    requires forall u :: u in open && Adjacent(CellOf(m), u) && u !in visited && u != CellOf(m) ==>
      exists e :: e in pushed && CellOf(e) == u && e.key <= m.key + 1
    requires multiset(q') == multiset(q) + multiset(pushed)
    ensures Frontier(visited + {CellOf(m)}, dist[CellOf(m) := m.key], q', open)
  {
    var visited', dist' := visited + {CellOf(m)}, dist[CellOf(m) := m.key];
    forall v, u | v in visited' && v in dist' && u in open && Adjacent(v, u) && u !in visited'
      ensures exists e :: e in q' && CellOf(e) == u && e.key <= dist'[v] + 1
    {
      if v == CellOf(m) {
        var e :| e in pushed && CellOf(e) == u && e.key <= m.key + 1;
        assert e in multiset(q');
      } else {
        var e :| e in q + [m] && CellOf(e) == u && e.key <= dist[v] + 1;
        assert e != m;
        assert e in multiset(q');
      }
    }
  }

  /** Cutting the loop out of a walk that visits a cell twice leaves a
    * walk to the same end that is `j - i` steps shorter. */
  lemma CutLoop(w: seq<Point>, i: int, j: int, start: Point, open: set<Point>)
    requires IsWalk(w, start, open) && 0 <= i < j < |w|
    ensures w[i] == w[j] ==> Reachable(w[|w| - 1], |w| - 1 - (j - i), start, open)
  {
    if w[i] == w[j] {
      var w' := w[..i] + w[j..];
      assert w'[0] == start by {
        if i == 0 {
          assert w'[0] == w[j] == w[0];
        }
      }
      forall k | 0 <= k < |w'| - 1
        ensures StepAt(w', k)
      {
        if k < i - 1 {
          assert StepAt(w, k);
        } else if k == i - 1 {
          assert StepAt(w, i - 1);
        } else {
          assert StepAt(w, k + (j - i));
        }
      }
      assert forall k :: 0 <= k < |w'| ==> w'[k] in open by {
        forall k | 0 <= k < |w'|
          ensures w'[k] in open
        {
          if k < i {
            assert w'[k] == w[k];
          } else {
            assert w'[k] == w[k + (j - i)];
          }
        }
      }
      assert IsWalk(w', start, open);
      assert w'[|w'| - 1] == w[|w| - 1];
    }
  }

  /** A shortest walk never visits a cell twice. */
  lemma ShortestIsSimple(w: seq<Point>, start: Point, open: set<Point>)
    requires IsWalk(w, start, open) && IsShortest(w[|w| - 1], |w| - 1, start, open)
    ensures forall i, j :: 0 <= i < j < |w| ==> w[i] != w[j]
  {
    forall i, j | 0 <= i < j < |w|
      ensures w[i] != w[j]
    {
      CutLoop(w, i, j, start, open);
    }
  }
}
