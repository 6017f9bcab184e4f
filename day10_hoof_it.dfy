// Day 10, part 1: a topographic map of digit heights; a hiking trail climbs
// by exactly one per step, moving up, down, left or right, from a height-0
// trailhead to a height-9 peak.  A trailhead's score is the number of
// distinct peaks it reaches.  The solver memoises, per square, the sorted
// array of reachable peaks and merges the neighbours' arrays.

module HoofIt {
  import FlatGrid

  const PEAK: int := 9

  /** A C `short`. */
  type short = x: int | -0x8000 <= x < 0x8000

  /** `(short)v`: two's complement truncation to 16 bits. */
  function Short(v: int): (s: short)
    ensures (s - v) % 0x1_0000 == 0
  {
    var u := v % 0x1_0000;
    if u < 0x8000 then u else u - 0x1_0000
  }

  /** `struct Point`: a peak's row and column, each cast to `short`. */
  datatype Point = Point(x: short, y: short)

  // ---- The order that `memcmp` gives the struct ----

  /** The bytes of a `Point` in memory: each `short` little-endian. */
  function Bytes(p: Point): (b: seq<int>)
    ensures |b| == 4 && forall i :: 0 <= i < 4 ==> 0 <= b[i] < 256
  {
    var u, v := p.x % 0x1_0000, p.y % 0x1_0000;
    [u % 256, u / 256, v % 256, v / 256]
  }

  /** The sign of `memcmp`: the first differing byte decides. */
  function Memcmp(a: seq<int>, b: seq<int>): (c: int)
    requires |a| == |b|
    ensures -1 <= c <= 1
    ensures c == 0 <==> a == b
  {
    if |a| == 0 then 0
    else if a[0] < b[0] then -1
    else if a[0] > b[0] then 1
    else
      var c := Memcmp(a[1..], b[1..]);
      assert a == [a[0]] + a[1..] && b == [b[0]] + b[1..];
      c
  }

  lemma {:induction false} MemcmpFlip(a: seq<int>, b: seq<int>)
    requires |a| == |b|
    ensures Memcmp(b, a) == -Memcmp(a, b)
  {
    if |a| > 0 && a[0] == b[0] {
      MemcmpFlip(a[1..], b[1..]);
    }
  }

  lemma {:induction false} MemcmpTrans(a: seq<int>, b: seq<int>, c: seq<int>)
    requires |a| == |b| == |c| && Memcmp(a, b) < 0 && Memcmp(b, c) < 0
    ensures Memcmp(a, c) < 0
  {
    if a[0] == b[0] && b[0] == c[0] {
      MemcmpTrans(a[1..], b[1..], c[1..]);
    }
  }

  /** A `short` is determined by its two bytes. */
  lemma BytesInjective(p: Point, q: Point)
    requires Bytes(p) == Bytes(q)
    ensures p == q
  {
    ShortFromBits(p.x, q.x);
    ShortFromBits(p.y, q.y);
  }

  lemma ShortFromBits(s: short, t: short)
    requires (s % 0x1_0000) % 256 == (t % 0x1_0000) % 256
    requires (s % 0x1_0000) / 256 == (t % 0x1_0000) / 256
    ensures s == t
  {
    var u, v := s % 0x1_0000, t % 0x1_0000;
    assert u == (u / 256) * 256 + u % 256;
    assert v == (v / 256) * 256 + v % 256;
    assert s == if s < 0 then u - 0x1_0000 else u;
    assert t == if t < 0 then v - 0x1_0000 else v;
  }

  /** `memcmp(&p, &q, sizeof(Point)) < 0`. */
  predicate Before(p: Point, q: Point) {
    Memcmp(Bytes(p), Bytes(q)) < 0
  }

  /** `Before` is a strict total order on points. */
  lemma BeforeTotal(p: Point, q: Point)
    ensures p == q || Before(p, q) || Before(q, p)
    ensures !(Before(p, q) && Before(q, p))
  {
    MemcmpFlip(Bytes(p), Bytes(q));
    if Memcmp(Bytes(p), Bytes(q)) == 0 {
      BytesInjective(p, q);
    }
  }

  lemma BeforeTrans(p: Point, q: Point, r: Point)
    requires Before(p, q) && Before(q, r)
    ensures Before(p, r)
  {
    MemcmpTrans(Bytes(p), Bytes(q), Bytes(r));
  }

  /** Strictly increasing in that order, so also free of duplicates. */
  predicate Sorted(s: seq<Point>) {
    forall i, j :: 0 <= i < j < |s| ==> Before(s[i], s[j])
  }

  // ---- union_point_arrays ----

  /** The merge of two arrays, taking the earlier head first and one copy
    * of two equal heads. */
  function Union(a: seq<Point>, b: seq<Point>): seq<Point>
    decreases |a| + |b|
  {
    if |a| == 0 then b
    else if |b| == 0 then a
    else
      var c := Memcmp(Bytes(a[0]), Bytes(b[0]));
      if c < 0 then [a[0]] + Union(a[1..], b)
      else if c > 0 then [b[0]] + Union(a, b[1..])
      else [a[0]] + Union(a[1..], b[1..])
  }

  /** The merge holds exactly the points of either array. */
  lemma {:induction false} UnionElems(a: seq<Point>, b: seq<Point>)
    ensures forall x :: x in Union(a, b) <==> x in a || x in b
    decreases |a| + |b|
  {
    if |a| > 0 && |b| > 0 {
      var c := Memcmp(Bytes(a[0]), Bytes(b[0]));
      assert a == [a[0]] + a[1..] && b == [b[0]] + b[1..];
      if c < 0 {
        UnionElems(a[1..], b);
      } else if c > 0 {
        UnionElems(a, b[1..]);
      } else {
        BytesInjective(a[0], b[0]);
        UnionElems(a[1..], b[1..]);
      }
    }
  }

  /** The merge is no longer than both arrays together. */
  lemma {:induction false} UnionLength(a: seq<Point>, b: seq<Point>)
    ensures |Union(a, b)| <= |a| + |b|
    decreases |a| + |b|
  {
    if |a| > 0 && |b| > 0 {
      var c := Memcmp(Bytes(a[0]), Bytes(b[0]));
      if c < 0 {
        UnionLength(a[1..], b);
      } else if c > 0 {
        UnionLength(a, b[1..]);
      } else {
        UnionLength(a[1..], b[1..]);
      }
    }
  }

  lemma SortedCons(x: Point, s: seq<Point>)
    requires Sorted(s) && forall y :: y in s ==> Before(x, y)
    ensures Sorted([x] + s)
  {
    var t := [x] + s;
    forall i, j | 0 <= i < j < |t|
      ensures Before(t[i], t[j])
    {
      if i > 0 {
        assert t[i] == s[i - 1] && t[j] == s[j - 1];
      } else {
        assert t[j] == s[j - 1];
      }
    }
  }

  lemma SortedTail(s: seq<Point>)
    requires Sorted(s) && |s| > 0
    ensures Sorted(s[1..]) && forall y :: y in s[1..] ==> Before(s[0], y)
  {
    forall y | y in s[1..]
      ensures Before(s[0], y)
    {
      var j :| 0 <= j < |s[1..]| && s[1..][j] == y;
      assert s[j + 1] == y;
    }
  }

  /** The head of an array comes before everything after the other head. */
  lemma HeadBefore(x: Point, b: seq<Point>)
    requires Sorted(b) && |b| > 0 && (x == b[0] || Before(x, b[0]))
    ensures forall y :: y in b[1..] ==> Before(x, y)
  {
    SortedTail(b);
    forall y | y in b[1..]
      ensures Before(x, y)
    {
      if x != b[0] {
        BeforeTrans(x, b[0], y);
      }
    }
  }

  /** Merging two sorted arrays gives a sorted array. */
  lemma {:induction false} UnionSorted(a: seq<Point>, b: seq<Point>)
    requires Sorted(a) && Sorted(b)
    ensures Sorted(Union(a, b))
    decreases |a| + |b|
  {
    if |a| > 0 && |b| > 0 {
      var c := Memcmp(Bytes(a[0]), Bytes(b[0]));
      SortedTail(a);
      SortedTail(b);
      if c < 0 {
        UnionSorted(a[1..], b);
        UnionElems(a[1..], b);
        assert b == [b[0]] + b[1..];
        HeadBefore(a[0], b);
        SortedCons(a[0], Union(a[1..], b));
      } else if c > 0 {
        MemcmpFlip(Bytes(a[0]), Bytes(b[0]));
        UnionSorted(a, b[1..]);
        UnionElems(a, b[1..]);
        assert a == [a[0]] + a[1..];
        HeadBefore(b[0], a);
        SortedCons(b[0], Union(a, b[1..]));
      } else {
        BytesInjective(a[0], b[0]);
        UnionSorted(a[1..], b[1..]);
        UnionElems(a[1..], b[1..]);
        HeadBefore(a[0], b);
        SortedCons(a[0], Union(a[1..], b[1..]));
      }
    }
  }

  /** The next merged element, by the comparison of the two heads. */
  lemma UnionHead(a: seq<Point>, b: seq<Point>, l: int, r: int)
    requires 0 <= l < |a| && 0 <= r < |b|
    ensures var c := Memcmp(Bytes(a[l]), Bytes(b[r]));
      (c < 0 ==> Union(a[l..], b[r..]) == [a[l]] + Union(a[l + 1..], b[r..])) &&
      (c > 0 ==> Union(a[l..], b[r..]) == [b[r]] + Union(a[l..], b[r + 1..])) &&
      (c == 0 ==> Union(a[l..], b[r..]) == [a[l]] + Union(a[l + 1..], b[r + 1..]))
  {
    assert a[l..][1..] == a[l + 1..];
    assert b[r..][1..] == b[r + 1..];
  }

  /** Once one array is used up, the merge is the rest of the other. */
  lemma UnionRest(a: seq<Point>, b: seq<Point>, l: int, r: int)
    requires 0 <= l <= |a| && 0 <= r <= |b| && (l == |a| || r == |b|)
    ensures l == |a| ==> Union(a[l..], b[r..]) == b[r..]
    ensures r == |b| ==> Union(a[l..], b[r..]) == a[l..]
  {
  }

  lemma ShiftOne(done: seq<Point>, s: seq<Point>, i: int)
    requires 0 <= i < |s|
    ensures done + s[i..] == (done + [s[i]]) + s[i + 1..]
  {
    assert s[i..] == [s[i]] + s[i + 1..];
  }

  lemma ShiftHead(done: seq<Point>, x: Point, s: seq<Point>)
    requires |s| > 0 && s[0] == x
    ensures done + s == (done + [x]) + s[1..]
  {
    assert s == [x] + s[1..];
  }

  /** `arr_union[destination_cursor++] = x`. */
  method Put(u: array<Point>, d: int, x: Point, ghost done: seq<Point>)
    requires 0 <= d < u.Length && u[..d] == done
    modifies u
    ensures u[..d + 1] == done + [x]
  {
    u[d] := x;
    assert u[..d + 1] == u[..d] + [x];
  }

  /** `while (cursor < size) arr_union[destination_cursor++] = arr[cursor++]`:
    * the rest of one array after the other is used up. */
  method CopyRest(u: array<Point>, dest: int, src: seq<Point>, from: int, ghost done: seq<Point>)
    returns (dest': int)
    requires 0 <= dest && 0 <= from <= |src| && dest + (|src| - from) <= u.Length && u[..dest] == done
    modifies u
    ensures dest' == dest + (|src| - from) && u[..dest'] == done + src[from..]
  {
    var cursor := from;
    dest' := dest;
    ghost var copied := done;
    while cursor < |src|
      invariant from <= cursor <= |src| && dest' == dest + (cursor - from)
      invariant u[..dest'] == copied && copied + src[cursor..] == done + src[from..]
      decreases |src| - cursor
    {
      Put(u, dest', src[cursor], copied);
      ShiftOne(copied, src, cursor);
      copied, dest', cursor := copied + [src[cursor]], dest' + 1, cursor + 1;
    }
    assert src[cursor..] == [];
    assert copied + [] == copied;
  }

  /** `union_point_arrays`: an empty second array gives the first back, an
    * empty first array a copy of the second, and otherwise the two are
    * merged by cursors into a new array of room `arr1_size + arr2_size`,
    * one copy of equal points counting against the returned size. */
  method UnionPointArrays(arr1: seq<Point>, arr1Size: int, arr2: seq<Point>, arr2Size: int)
    returns (arrUnion: seq<Point>, returnSize: int)
    requires arr1Size == |arr1| && arr2Size == |arr2|
    ensures arrUnion == Union(arr1, arr2) && returnSize == |arrUnion|
  {
    if arr2Size == 0 {
      return arr1, arr1Size;
    } else if arr1Size == 0 {
      return arr2, arr2Size;
    }
    ghost var goal := Union(arr1, arr2);
    returnSize := arr1Size + arr2Size;
    var u := new Point[returnSize];
    var left, right, dest := 0, 0, 0;
    ghost var done: seq<Point> := [];
    while left < arr1Size && right < arr2Size
      invariant 0 <= left <= arr1Size && 0 <= right <= arr2Size
      invariant returnSize == dest + (arr1Size - left) + (arr2Size - right) <= u.Length
      invariant u[..dest] == done && done + Union(arr1[left..], arr2[right..]) == goal
      decreases arr1Size - left + arr2Size - right
    {
      var comparison := Memcmp(Bytes(arr1[left]), Bytes(arr2[right]));
      UnionHead(arr1, arr2, left, right);
      var x := if comparison > 0 then arr2[right] else arr1[left];
      Put(u, dest, x, done);
      ShiftHead(done, x, Union(arr1[left..], arr2[right..]));
      done, dest := done + [x], dest + 1;
      if comparison < 0 {
        left := left + 1;
      } else if comparison > 0 {
        right := right + 1;
      } else {
        left, right := left + 1, right + 1;
        returnSize := returnSize - 1;
      }
    }
    UnionRest(arr1, arr2, left, right);
    if right == arr2Size {
      dest := CopyRest(u, dest, arr1, left, done);
    } else {
      dest := CopyRest(u, dest, arr2, right, done);
    }
    done := u[..dest];
    assert done == goal;
    arrUnion := u[..dest];
  }

  // ---- The map and its trails ----

  datatype Cell = Cell(row: int, col: int)

  /** A map of `rows` rows of `cols` digit heights. */
  predicate Heights(grid: seq<seq<int>>, rows: int, cols: int) {
    |grid| == rows && 0 <= cols &&
    forall r :: 0 <= r < rows ==> |grid[r]| == cols && forall c :: 0 <= c < cols ==> 0 <= grid[r][c] <= PEAK
  }

  predicate InMap(c: Cell, rows: int, cols: int) {
    0 <= c.row < rows && 0 <= c.col < cols
  }

  function HeightAt(grid: seq<seq<int>>, rows: int, cols: int, c: Cell): (ht: int)
    requires Heights(grid, rows, cols) && InMap(c, rows, cols)
    ensures 0 <= ht <= PEAK
  {
    grid[c.row][c.col]
  }

  /** The neighbours in the order the solver tries them: right, up, left,
    * down. */
  function Neighbour(c: Cell, k: int): Cell {
    if k == 0 then Cell(c.row, c.col + 1)
    else if k == 1 then Cell(c.row - 1, c.col)
    else if k == 2 then Cell(c.row, c.col - 1)
    else Cell(c.row + 1, c.col)
  }

  /** The bounds test before neighbour `k`: the column against the
    * column count going right, the row against 0 going up, the column
    * against 0 going left, the row against the row count going down. */
  function Guard(c: Cell, k: int, rows: int, cols: int): (g: bool)
    requires InMap(c, rows, cols) && 0 <= k < 4
    ensures g <==> InMap(Neighbour(c, k), rows, cols)
  {
    if k == 0 then c.col + 1 < cols
    else if k == 1 then c.row > 0
    else if k == 2 then c.col > 0
    else c.row + 1 < rows
  }

  /** The bounds test as the solver writes it: going down, the row is
    * compared with the column count. */
  function GuardAsWritten(c: Cell, k: int, rows: int, cols: int): (g: bool)
    requires 0 <= k < 4
    ensures InMap(c, rows, cols) && k < 3 ==> (g <==> Guard(c, k, rows, cols))
    ensures k == 3 ==> (g <==> c.row + 1 < cols)
  {
    if k == 0 then c.col + 1 < cols
    else if k == 1 then c.row > 0
    else if k == 2 then c.col > 0
    else c.row + 1 < cols
  }

  /** On a square map the two tests agree. */
  lemma GuardSquareMap(c: Cell, k: int, rows: int, cols: int)
    requires InMap(c, rows, cols) && 0 <= k < 4 && rows == cols
    ensures GuardAsWritten(c, k, rows, cols) == Guard(c, k, rows, cols)
  {
  }

  /** On a map one row high and two columns wide the written test lets the
    * down step through from (0, 0), to the flat index one past the end;
    * on a map three rows high and two wide it stops the down step from
    * (1, 0), which is in the map. */
  lemma DownGuardExamples()
    ensures GuardAsWritten(Cell(0, 0), 3, 1, 2) && !InMap(Neighbour(Cell(0, 0), 3), 1, 2)
    ensures (0 + 1) * 2 + 0 == 1 * 2
    ensures !GuardAsWritten(Cell(1, 0), 3, 3, 2) && InMap(Neighbour(Cell(1, 0), 3), 3, 2)
  {
  }

  predicate Adjacent(c: Cell, d: Cell) {
    exists k :: 0 <= k < 4 && d == Neighbour(c, k)
  }

  /** From `c` a trail can go on to the neighbour `n`. */
  predicate Climbs(grid: seq<seq<int>>, rows: int, cols: int, c: Cell, n: Cell)
    requires Heights(grid, rows, cols) && InMap(c, rows, cols)
  {
    InMap(n, rows, cols) && HeightAt(grid, rows, cols, n) == HeightAt(grid, rows, cols, c) + 1
  }

  /** A hiking trail: cells in the map, each the neighbour of the one before
    * and exactly one higher. */
  ghost predicate IsTrail(grid: seq<seq<int>>, rows: int, cols: int, t: seq<Cell>)
    requires Heights(grid, rows, cols)
  {
    |t| >= 1 && (forall i :: 0 <= i < |t| ==> InMap(t[i], rows, cols)) &&
    forall i :: 0 <= i < |t| - 1 ==> Adjacent(t[i], t[i + 1]) && Climbs(grid, rows, cols, t[i], t[i + 1])
  }

  /** The `Point` stored for a peak. */
  function PointOf(c: Cell): Point {
    Point(Short(c.row), Short(c.col))
  }

  /** Some trail from `c` ends on a peak stored as `p`. */
  ghost predicate ReachesPeak(grid: seq<seq<int>>, rows: int, cols: int, c: Cell, p: Point)
    requires Heights(grid, rows, cols)
  {
    exists t :: IsTrail(grid, rows, cols, t) && t[0] == c &&
      HeightAt(grid, rows, cols, t[|t| - 1]) == PEAK && PointOf(t[|t| - 1]) == p
  }

  /** The array `get_reachable_peaks` computes for `c`: the square itself
    * on a peak, and otherwise the merge of the arrays of the neighbours one
    * higher, taken right, up, left, down. */
  function Peaks(grid: seq<seq<int>>, rows: int, cols: int, c: Cell): seq<Point>
    requires Heights(grid, rows, cols) && InMap(c, rows, cols)
    decreases PEAK - HeightAt(grid, rows, cols, c), 1
  {
    if HeightAt(grid, rows, cols, c) == PEAK then [PointOf(c)]
    else Gather(grid, rows, cols, c, 3, Gather(grid, rows, cols, c, 2,
           Gather(grid, rows, cols, c, 1, Gather(grid, rows, cols, c, 0, []))))
  }

  /** The merge with neighbour `k`'s array when the trail can climb there. */
  function Gather(grid: seq<seq<int>>, rows: int, cols: int, c: Cell, k: int, acc: seq<Point>): seq<Point>
    requires Heights(grid, rows, cols) && InMap(c, rows, cols)
    decreases PEAK - HeightAt(grid, rows, cols, c), 0
  {
    if Climbs(grid, rows, cols, c, Neighbour(c, k)) then Union(acc, Peaks(grid, rows, cols, Neighbour(c, k)))
    else acc
  }

  lemma GatherElems(grid: seq<seq<int>>, rows: int, cols: int, c: Cell, k: int, acc: seq<Point>)
    requires Heights(grid, rows, cols) && InMap(c, rows, cols)
    ensures forall x :: x in Gather(grid, rows, cols, c, k, acc) <==>
      x in acc || (Climbs(grid, rows, cols, c, Neighbour(c, k)) && x in Peaks(grid, rows, cols, Neighbour(c, k)))
  {
    if Climbs(grid, rows, cols, c, Neighbour(c, k)) {
      UnionElems(acc, Peaks(grid, rows, cols, Neighbour(c, k)));
    }
  }

  /** What lands in `Peaks`: the square itself on a peak, otherwise what
    * some climbing neighbour reaches. */
  lemma PeaksElems(grid: seq<seq<int>>, rows: int, cols: int, c: Cell)
    requires Heights(grid, rows, cols) && InMap(c, rows, cols)
    ensures HeightAt(grid, rows, cols, c) == PEAK ==> Peaks(grid, rows, cols, c) == [PointOf(c)]
    ensures HeightAt(grid, rows, cols, c) != PEAK ==> forall x ::
      x in Peaks(grid, rows, cols, c) <==>
      exists k :: 0 <= k < 4 && Climbs(grid, rows, cols, c, Neighbour(c, k)) && x in Peaks(grid, rows, cols, Neighbour(c, k))
  {
    if HeightAt(grid, rows, cols, c) != PEAK {
      var r0 := Gather(grid, rows, cols, c, 0, []);
      var r1 := Gather(grid, rows, cols, c, 1, r0);
      var r2 := Gather(grid, rows, cols, c, 2, r1);
      GatherElems(grid, rows, cols, c, 0, []);
      GatherElems(grid, rows, cols, c, 1, r0);
      GatherElems(grid, rows, cols, c, 2, r1);
      GatherElems(grid, rows, cols, c, 3, r2);
    }
  }

  lemma GatherSorted(grid: seq<seq<int>>, rows: int, cols: int, c: Cell, k: int, acc: seq<Point>)
    requires Heights(grid, rows, cols) && InMap(c, rows, cols) && Sorted(acc)
    requires Climbs(grid, rows, cols, c, Neighbour(c, k)) ==> Sorted(Peaks(grid, rows, cols, Neighbour(c, k)))
    ensures Sorted(Gather(grid, rows, cols, c, k, acc))
  {
    if Climbs(grid, rows, cols, c, Neighbour(c, k)) {
      UnionSorted(acc, Peaks(grid, rows, cols, Neighbour(c, k)));
    }
  }

  /** Every array `get_reachable_peaks` builds is sorted. */
  lemma {:induction false} PeaksSorted(grid: seq<seq<int>>, rows: int, cols: int, c: Cell)
    requires Heights(grid, rows, cols) && InMap(c, rows, cols)
    ensures Sorted(Peaks(grid, rows, cols, c))
    decreases PEAK - HeightAt(grid, rows, cols, c)
  {
    if HeightAt(grid, rows, cols, c) != PEAK {
      forall k | 0 <= k < 4 && Climbs(grid, rows, cols, c, Neighbour(c, k))
        ensures Sorted(Peaks(grid, rows, cols, Neighbour(c, k)))
      {
        PeaksSorted(grid, rows, cols, Neighbour(c, k));
      }
      var r0 := Gather(grid, rows, cols, c, 0, []);
      var r1 := Gather(grid, rows, cols, c, 1, r0);
      var r2 := Gather(grid, rows, cols, c, 2, r1);
      GatherSorted(grid, rows, cols, c, 0, []);
      GatherSorted(grid, rows, cols, c, 1, r0);
      GatherSorted(grid, rows, cols, c, 2, r1);
      GatherSorted(grid, rows, cols, c, 3, r2);
    }
  }

  /** `Peaks` holds exactly the peaks some trail from `c` reaches. */
  lemma PeaksReachable(grid: seq<seq<int>>, rows: int, cols: int, c: Cell, x: Point)
    requires Heights(grid, rows, cols) && InMap(c, rows, cols)
    ensures x in Peaks(grid, rows, cols, c) <==> ReachesPeak(grid, rows, cols, c, x)
  {
    if x in Peaks(grid, rows, cols, c) {
      PeakHasTrail(grid, rows, cols, c, x);
    }
    if ReachesPeak(grid, rows, cols, c, x) {
      var t :| IsTrail(grid, rows, cols, t) && t[0] == c &&
        HeightAt(grid, rows, cols, t[|t| - 1]) == PEAK && PointOf(t[|t| - 1]) == x;
      TrailEndInPeaks(grid, rows, cols, t, x);
    }
  }

  lemma {:induction false} PeakHasTrail(grid: seq<seq<int>>, rows: int, cols: int, c: Cell, x: Point)
    requires Heights(grid, rows, cols) && InMap(c, rows, cols) && x in Peaks(grid, rows, cols, c)
    ensures ReachesPeak(grid, rows, cols, c, x)
    decreases PEAK - HeightAt(grid, rows, cols, c)
  {
    if HeightAt(grid, rows, cols, c) == PEAK {
      PeaksElems(grid, rows, cols, c);
      assert IsTrail(grid, rows, cols, [c]);
    } else {
      var k := PeakVia(grid, rows, cols, c, x);
      var n := Neighbour(c, k);
      PeakHasTrail(grid, rows, cols, n, x);
      var t :| IsTrail(grid, rows, cols, t) && t[0] == n &&
        HeightAt(grid, rows, cols, t[|t| - 1]) == PEAK && PointOf(t[|t| - 1]) == x;
      assert Adjacent(c, n);
      TrailCons(grid, rows, cols, c, t);
      var t' := [c] + t;
      assert t'[|t'| - 1] == t[|t| - 1];
      assert IsTrail(grid, rows, cols, t') && t'[0] == c;
    }
  }

  /** A peak in the array of a lower square is in the array of one of its
    * climbable neighbours. */
  lemma PeakVia(grid: seq<seq<int>>, rows: int, cols: int, c: Cell, x: Point) returns (k: int)
    requires Heights(grid, rows, cols) && InMap(c, rows, cols) && x in Peaks(grid, rows, cols, c)
    requires HeightAt(grid, rows, cols, c) != PEAK
    ensures 0 <= k < 4 && Climbs(grid, rows, cols, c, Neighbour(c, k))
    ensures x in Peaks(grid, rows, cols, Neighbour(c, k))
  {
    PeaksElems(grid, rows, cols, c);
    k :| 0 <= k < 4 && Climbs(grid, rows, cols, c, Neighbour(c, k)) && x in Peaks(grid, rows, cols, Neighbour(c, k));
  }

  lemma {:induction false} TrailEndInPeaks(grid: seq<seq<int>>, rows: int, cols: int, t: seq<Cell>, x: Point)
    requires Heights(grid, rows, cols) && IsTrail(grid, rows, cols, t)
    requires HeightAt(grid, rows, cols, t[|t| - 1]) == PEAK && PointOf(t[|t| - 1]) == x
    ensures x in Peaks(grid, rows, cols, t[0])
    decreases |t|
  {
    var c := t[0];
    PeaksElems(grid, rows, cols, c);
    if |t| > 1 {
      var n := t[1];
      assert Adjacent(c, n) && Climbs(grid, rows, cols, c, n);
      var k :| 0 <= k < 4 && n == Neighbour(c, k);
      TrailTail(grid, rows, cols, t);
      TrailEndInPeaks(grid, rows, cols, t[1..], x);
    }
  }

  lemma TrailCons(grid: seq<seq<int>>, rows: int, cols: int, c: Cell, t: seq<Cell>)
    requires Heights(grid, rows, cols) && InMap(c, rows, cols) && IsTrail(grid, rows, cols, t)
    requires Adjacent(c, t[0]) && Climbs(grid, rows, cols, c, t[0])
    ensures IsTrail(grid, rows, cols, [c] + t) && ([c] + t)[0] == c && ([c] + t)[|t|] == t[|t| - 1]
  {
    var t' := [c] + t;
    forall i | 0 <= i < |t'| - 1
      ensures Adjacent(t'[i], t'[i + 1]) && Climbs(grid, rows, cols, t'[i], t'[i + 1])
    {
      if i > 0 {
        assert t'[i] == t[i - 1] && t'[i + 1] == t[i];
      }
    }
  }

  lemma TrailTail(grid: seq<seq<int>>, rows: int, cols: int, t: seq<Cell>)
    requires Heights(grid, rows, cols) && IsTrail(grid, rows, cols, t) && |t| >= 2
    ensures IsTrail(grid, rows, cols, t[1..]) && t[1..][0] == t[1] && t[1..][|t| - 2] == t[|t| - 1]
  {
    var t' := t[1..];
    forall i | 0 <= i < |t'| - 1
      ensures Adjacent(t'[i], t'[i + 1]) && Climbs(grid, rows, cols, t'[i], t'[i + 1])
    {
      assert t'[i] == t[i + 1] && t'[i + 1] == t[i + 2];
    }
  }

  // ---- get_reachable_peaks ----

  /** `struct MapSquare`: the memoised peaks of a square, their number (-1
    * while not computed) and the square's height. */
  datatype MapSquare = MapSquare(reachablePeaks: seq<Point>, reachablePeaksSize: int, height: int)

  /** The square of `c` in the flattened map. */
  function SquareOf(m: seq<MapSquare>, rows: int, cols: int, c: Cell): MapSquare
    requires |m| == rows * cols && InMap(c, rows, cols)
  {
    m[FlatGrid.Idx(c.row, c.col, rows, cols)]
  }

  /** Square `c` holds its height, and its peaks once computed. */
  predicate MemoCell(m: seq<MapSquare>, grid: seq<seq<int>>, rows: int, cols: int, c: Cell)
    requires Heights(grid, rows, cols) && |m| == rows * cols && InMap(c, rows, cols)
  {
    var sq := SquareOf(m, rows, cols, c);
    sq.height == HeightAt(grid, rows, cols, c) &&
    (sq.reachablePeaksSize != -1 ==>
      sq.reachablePeaks == Peaks(grid, rows, cols, c) && sq.reachablePeaksSize == |sq.reachablePeaks|)
  }

  /** The memo is sound: every square of the map is as `MemoCell` says. */
  ghost predicate Memo(m: seq<MapSquare>, grid: seq<seq<int>>, rows: int, cols: int) {
    Heights(grid, rows, cols) && |m| == rows * cols &&
    forall c :: InMap(c, rows, cols) ==> MemoCell(m, grid, rows, cols, c)
  }

  /** Storing the peaks of `c` keeps the memo sound. */
  lemma MemoStore(m: seq<MapSquare>, grid: seq<seq<int>>, rows: int, cols: int, c: Cell, peaks: seq<Point>)
    requires Memo(m, grid, rows, cols) && InMap(c, rows, cols) && peaks == Peaks(grid, rows, cols, c)
    ensures var i := FlatGrid.Idx(c.row, c.col, rows, cols);
      Memo(m[i := m[i].(reachablePeaks := peaks, reachablePeaksSize := |peaks|)], grid, rows, cols)
  {
    var i := FlatGrid.Idx(c.row, c.col, rows, cols);
    var m' := m[i := m[i].(reachablePeaks := peaks, reachablePeaksSize := |peaks|)];
    assert MemoCell(m, grid, rows, cols, c);
    forall d | InMap(d, rows, cols)
      ensures MemoCell(m', grid, rows, cols, d)
    {
      assert MemoCell(m, grid, rows, cols, d);
      FlatGrid.IdxInjective(c.row, c.col, d.row, d.col, rows, cols);
    }
  }

  /** `get_reachable_peaks`: a memoised square answers at once; a peak
    * reaches itself; otherwise the arrays of the neighbours one higher are
    * merged, right, up, left, down, and the result is memoised. */
  method GetReachablePeaks(squares: array<MapSquare>, ghost grid: seq<seq<int>>, rows: int, cols: int, row: int, col: int)
    returns (reachablePeaks: seq<Point>, returnSize: int)
    requires Memo(squares[..], grid, rows, cols) && InMap(Cell(row, col), rows, cols)
    modifies squares
    ensures Memo(squares[..], grid, rows, cols)
    ensures reachablePeaks == Peaks(grid, rows, cols, Cell(row, col)) && returnSize == |reachablePeaks|
    ensures SquareOf(squares[..], rows, cols, Cell(row, col)).reachablePeaksSize != -1
    ensures old(SquareOf(squares[..], rows, cols, Cell(row, col)).reachablePeaksSize) != -1 ==> squares[..] == old(squares[..])
    decreases PEAK - HeightAt(grid, rows, cols, Cell(row, col)), 1
  {
    ghost var c := Cell(row, col);
    var i := FlatGrid.Idx(row, col, rows, cols);
    assert MemoCell(squares[..], grid, rows, cols, c);
    if squares[i].reachablePeaksSize != -1 {
      return squares[i].reachablePeaks, squares[i].reachablePeaksSize;
    }
    var height := squares[i].height;
    if height == PEAK {
      reachablePeaks, returnSize := [Point(Short(row), Short(col))], 1;
    } else {
      height := height + 1;
      reachablePeaks, returnSize := [], 0;
      reachablePeaks, returnSize := CheckNeighbour(squares, grid, rows, cols, row, col, height, 0, reachablePeaks, returnSize);
      reachablePeaks, returnSize := CheckNeighbour(squares, grid, rows, cols, row, col, height, 1, reachablePeaks, returnSize);
      reachablePeaks, returnSize := CheckNeighbour(squares, grid, rows, cols, row, col, height, 2, reachablePeaks, returnSize);
      reachablePeaks, returnSize := CheckNeighbour(squares, grid, rows, cols, row, col, height, 3, reachablePeaks, returnSize);
    }
    MemoStore(squares[..], grid, rows, cols, c, reachablePeaks);
    squares[i] := squares[i].(reachablePeaks := reachablePeaks, reachablePeaksSize := returnSize);
  }

  /** The solver's test for neighbour `k`, on the flattened map, is
    * `Climbs`. */
  lemma ClimbsIff(m: seq<MapSquare>, grid: seq<seq<int>>, rows: int, cols: int, c: Cell, k: int)
    requires Memo(m, grid, rows, cols) && InMap(c, rows, cols) && 0 <= k < 4
    ensures var n := Neighbour(c, k);
      Climbs(grid, rows, cols, c, n) <==>
      InMap(n, rows, cols) && SquareOf(m, rows, cols, n).height == HeightAt(grid, rows, cols, c) + 1
  {
    var n := Neighbour(c, k);
    if InMap(n, rows, cols) {
      assert MemoCell(m, grid, rows, cols, n);
    }
  }

  /** The solver's test of neighbour `k` (right, up, left, down) of a
    * square below the peaks, and the merge when it is one higher. */
  method CheckNeighbour(squares: array<MapSquare>, ghost grid: seq<seq<int>>, rows: int, cols: int,
                        row: int, col: int, height: int, k: int, reachablePeaks: seq<Point>, returnSize: int)
    returns (merged: seq<Point>, mergedSize: int)
    requires Memo(squares[..], grid, rows, cols) && InMap(Cell(row, col), rows, cols) && 0 <= k < 4
    requires height == HeightAt(grid, rows, cols, Cell(row, col)) + 1 <= PEAK
    requires returnSize == |reachablePeaks|
    modifies squares
    ensures Memo(squares[..], grid, rows, cols)
    ensures merged == Gather(grid, rows, cols, Cell(row, col), k, reachablePeaks) && mergedSize == |merged|
    decreases PEAK - HeightAt(grid, rows, cols, Cell(row, col)), 0
  {
    ClimbsIff(squares[..], grid, rows, cols, Cell(row, col), k);
    merged, mergedSize := reachablePeaks, returnSize;
    var n := Neighbour(Cell(row, col), k);
    if Guard(Cell(row, col), k, rows, cols) && squares[FlatGrid.Idx(n.row, n.col, rows, cols)].height == height {
      merged, mergedSize := MergeNeighbour(squares, grid, rows, cols, row, col, n.row, n.col, reachablePeaks, returnSize);
    }
  }


  /** `neighbor_peaks = get_reachable_peaks(..., nrow, ncol, ...)` followed
    * by `union_point_arrays(reachable_peaks, ..., neighbor_peaks, ...)`,
    * for a neighbour one higher. */
  method MergeNeighbour(squares: array<MapSquare>, ghost grid: seq<seq<int>>, rows: int, cols: int,
                        row: int, col: int, nrow: int, ncol: int, reachablePeaks: seq<Point>, returnSize: int)
    returns (merged: seq<Point>, mergedSize: int)
    requires Memo(squares[..], grid, rows, cols) && InMap(Cell(row, col), rows, cols)
    requires InMap(Cell(nrow, ncol), rows, cols)
    requires SquareOf(squares[..], rows, cols, Cell(nrow, ncol)).height == HeightAt(grid, rows, cols, Cell(row, col)) + 1
    requires returnSize == |reachablePeaks|
    modifies squares
    ensures Memo(squares[..], grid, rows, cols)
    ensures merged == Union(reachablePeaks, Peaks(grid, rows, cols, Cell(nrow, ncol))) && mergedSize == |merged|
    decreases PEAK - HeightAt(grid, rows, cols, Cell(nrow, ncol)), 2
  {
    assert MemoCell(squares[..], grid, rows, cols, Cell(nrow, ncol));
    var neighbourPeaks, neighbourPeaksSize := GetReachablePeaks(squares, grid, rows, cols, nrow, ncol);
    merged, mergedSize := UnionPointArrays(reachablePeaks, returnSize, neighbourPeaks, neighbourPeaksSize);
  }

  // ---- The score ----

  /** A sorted array has as many distinct points as entries. */
  lemma {:induction false} SortedDistinct(s: seq<Point>)
    requires Sorted(s)
    ensures |set x | x in s| == |s|
    decreases |s|
  {
    if |s| > 0 {
      SortedTail(s);
      SortedDistinct(s[1..]);
      assert s[0] !in s[1..] by {
        if s[0] in s[1..] {
          BeforeTotal(s[0], s[0]);
        }
      }
      ConsElems(s);
    }
  }

  lemma ConsElems(s: seq<Point>)
    requires |s| > 0 && s[0] !in s[1..]
    ensures |set x | x in s| == 1 + |set x | x in s[1..]|
  {
    assert s == [s[0]] + s[1..];
    assert (set x | x in s) == {s[0]} + (set x | x in s[1..]);
  }

  /** A trailhead's score, the length of its array, is the number of
    * distinct peaks its trails reach. */
  lemma ScoreCountsPeaks(grid: seq<seq<int>>, rows: int, cols: int, c: Cell)
    requires Heights(grid, rows, cols) && InMap(c, rows, cols)
    ensures exists ends: set<Point> ::
      |ends| == |Peaks(grid, rows, cols, c)| && forall x :: x in ends <==> ReachesPeak(grid, rows, cols, c, x)
  {
    var ends := set x | x in Peaks(grid, rows, cols, c);
    PeaksSorted(grid, rows, cols, c);
    SortedDistinct(Peaks(grid, rows, cols, c));
    forall x
      ensures x in ends <==> ReachesPeak(grid, rows, cols, c, x)
    {
      PeaksReachable(grid, rows, cols, c, x);
    }
  }

  /** The scores of the trailheads in row `r` before column `n`. */
  function RowScore(grid: seq<seq<int>>, rows: int, cols: int, r: int, n: int): int
    requires Heights(grid, rows, cols) && 0 <= r < rows && 0 <= n <= cols
  {
    if n == 0 then 0
    else
      var score := if grid[r][n - 1] == 0 then |Peaks(grid, rows, cols, Cell(r, n - 1))| else 0;
      RowScore(grid, rows, cols, r, n - 1) + score
  }

  /** The scores of the trailheads in the rows before row `n`. */
  function GridScore(grid: seq<seq<int>>, rows: int, cols: int, n: int): int
    requires Heights(grid, rows, cols) && 0 <= n <= rows
  {
    if n == 0 then 0 else GridScore(grid, rows, cols, n - 1) + RowScore(grid, rows, cols, n - 1, cols)
  }

  /** Every row as long as the first. */
  predicate Rectangular(mapRows: seq<seq<int>>) {
    forall r :: 0 <= r < |mapRows| ==> |mapRows[r]| == |mapRows[0]|
  }

  function Width(mapRows: seq<seq<int>>): int {
    if |mapRows| > 0 then |mapRows[0]| else 0
  }

  /** The parser only produces digits. */
  predicate Digits(mapRows: seq<seq<int>>) {
    forall r :: 0 <= r < |mapRows| ==> forall c :: 0 <= c < |mapRows[r]| ==> 0 <= mapRows[r][c] <= PEAK
  }

  /** A fresh square: height from the map, nothing computed yet. */
  function Fresh(mapRows: seq<seq<int>>, r: int, c: int): MapSquare
    requires 0 <= r < |mapRows| && 0 <= c < |mapRows[r]|
  {
    MapSquare([], -1, mapRows[r][c])
  }

  /** The flattened squares of the first `n` rows. */
  function FreshRows(mapRows: seq<seq<int>>, cols: int, n: int): (m: seq<MapSquare>)
    requires 0 <= n <= |mapRows| && 0 <= cols && forall r :: 0 <= r < n ==> |mapRows[r]| == cols
    ensures |m| == n * cols
  {
    if n == 0 then []
    else FreshRows(mapRows, cols, n - 1) + seq(cols, c requires 0 <= c < cols => Fresh(mapRows, n - 1, c))
  }

  lemma {:induction false} FreshRowsAt(mapRows: seq<seq<int>>, cols: int, n: int, r: int, c: int)
    requires 0 <= n <= |mapRows| && 0 <= cols && forall r :: 0 <= r < n ==> |mapRows[r]| == cols
    requires 0 <= r < n && 0 <= c < cols
    ensures FreshRows(mapRows, cols, n)[FlatGrid.Idx(r, c, n, cols)] == Fresh(mapRows, r, c)
    decreases n
  {
    var m := FreshRows(mapRows, cols, n - 1);
    assert |m| == (n - 1) * cols;
    if r < n - 1 {
      FreshRowsAt(mapRows, cols, n - 1, r, c);
      assert FlatGrid.Idx(r, c, n, cols) == FlatGrid.Idx(r, c, n - 1, cols);
    } else {
      assert FlatGrid.Idx(r, c, n, cols) == |m| + c;
    }
  }

  /** The freshly filled map is a sound, empty memo. */
  lemma FreshMemo(mapRows: seq<seq<int>>, rows: int, cols: int)
    requires Heights(mapRows, rows, cols)
    ensures Memo(FreshRows(mapRows, cols, rows), mapRows, rows, cols)
  {
    forall c | InMap(c, rows, cols)
      ensures MemoCell(FreshRows(mapRows, cols, rows), mapRows, rows, cols, c)
    {
      FreshRowsAt(mapRows, cols, rows, c.row, c.col);
    }
  }

  /** `get_total_trailhead_score`: -1 for a map whose rows differ in
    * length; otherwise the squares are filled with their heights and no
    * memo, and the scores of all height-0 squares are added up in
    * row-major order. */
  method GetTotalTrailheadScore(mapRows: seq<seq<int>>) returns (totalScore: int)
    requires Digits(mapRows)
    ensures !Rectangular(mapRows) ==> totalScore == -1
    ensures Rectangular(mapRows) ==> Heights(mapRows, |mapRows|, Width(mapRows))
    ensures Rectangular(mapRows) ==> totalScore == GridScore(mapRows, |mapRows|, Width(mapRows), |mapRows|)
  {
    var squares, ok := NewSquares(mapRows);
    if !ok {
      return -1;
    }
    var mapSize, mapRowSize := |mapRows|, Width(mapRows);
    DigitsHeights(mapRows);
    FreshMemo(mapRows, mapSize, mapRowSize);
    totalScore := 0;
    for row := 0 to mapSize
      invariant Memo(squares[..], mapRows, mapSize, mapRowSize)
      invariant totalScore == GridScore(mapRows, mapSize, mapRowSize, row)
    {
      totalScore := RowTrailheads(squares, mapRows, mapSize, mapRowSize, row, totalScore);
    }
  }

  /** The first loop of `get_total_trailhead_score`: a square per cell with
    * its height and no memo, or failure at the first row whose length
    * differs from the first row's. */
  method NewSquares(mapRows: seq<seq<int>>) returns (squares: array<MapSquare>, ok: bool)
    ensures fresh(squares) && (ok <==> Rectangular(mapRows))
    ensures ok ==> squares[..] == FreshRows(mapRows, Width(mapRows), |mapRows|)
  {
    var mapSize := |mapRows|;
    var mapRowSize := Width(mapRows);
    squares := new MapSquare[mapSize * mapRowSize];
    for row := 0 to mapSize
      invariant forall r :: 0 <= r < row ==> |mapRows[r]| == mapRowSize
      invariant squares[..row * mapRowSize] == FreshRows(mapRows, mapRowSize, row)
    {
      if |mapRows[row]| != mapRowSize {
        return squares, false;
      }
      FillRow(squares, mapRows, mapRowSize, row);
    }
    assert squares[..] == squares[..mapSize * mapRowSize];
    ok := true;
  }

  lemma DigitsHeights(mapRows: seq<seq<int>>)
    requires Digits(mapRows) && Rectangular(mapRows)
    ensures Heights(mapRows, |mapRows|, Width(mapRows))
  {
  }


  /** `for (col ...)` of the filling loop: row `row` of the flattened map. */
  method FillRow(squares: array<MapSquare>, mapRows: seq<seq<int>>, cols: int, row: int)
    requires 0 <= row < |mapRows| && 0 <= cols && squares.Length == |mapRows| * cols
    requires forall r :: 0 <= r <= row ==> |mapRows[r]| == cols
    requires squares[..row * cols] == FreshRows(mapRows, cols, row)
    modifies squares
    ensures squares[..(row + 1) * cols] == FreshRows(mapRows, cols, row + 1)
  {
    var base := row * cols;
    RowFits(row, |mapRows|, cols);
    ghost var done := FreshRows(mapRows, cols, row);
    ghost var line := seq(cols, c requires 0 <= c < cols => Fresh(mapRows, row, c));
    for col := 0 to cols
      invariant squares[..base + col] == done + line[..col]
    {
      squares[base + col] := MapSquare([], -1, mapRows[row][col]);
      assert squares[..base + col + 1] == squares[..base + col] + [line[col]];
      assert line[..col + 1] == line[..col] + [line[col]];
    }
    assert line[..cols] == line;
    assert FreshRows(mapRows, cols, row + 1) == done + line;
  }

  lemma RowFits(row: int, rows: int, cols: int)
    requires 0 <= row < rows && 0 <= cols
    ensures 0 <= row * cols && (row + 1) * cols == row * cols + cols <= rows * cols
  {
    assert rows * cols - (row + 1) * cols == (rows - row - 1) * cols;
  }

  /** The inner loop of the scoring: the trailheads of row `row`. */
  method RowTrailheads(squares: array<MapSquare>, ghost grid: seq<seq<int>>, rows: int, cols: int, row: int, total: int)
    returns (total': int)
    requires Memo(squares[..], grid, rows, cols) && 0 <= row < rows
    requires total == GridScore(grid, rows, cols, row)
    modifies squares
    ensures Memo(squares[..], grid, rows, cols)
    ensures total' == GridScore(grid, rows, cols, row + 1)
  {
    total' := total;
    for col := 0 to cols
      invariant Memo(squares[..], grid, rows, cols)
      invariant total' == total + RowScore(grid, rows, cols, row, col)
    {
      assert MemoCell(squares[..], grid, rows, cols, Cell(row, col));
      if squares[FlatGrid.Idx(row, col, rows, cols)].height == 0 {
        var peaks, score := GetReachablePeaks(squares, grid, rows, cols, row, col);
        total' := total' + score;
      }
    }
  }
}
