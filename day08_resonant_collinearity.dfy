// Day 8, part 2: antennas of one frequency create antinodes at every grid
// point on the line through any two of them.

module ResonantCollinearity {
  import opened CArith

  // ---------------------------------------------------------------------------
  // Frequencies.

  /** Number of frequency tables: digits, upper-case and lower-case letters. */
  const FREQUENCY_COUNT: int := 10 + 26 + 26

  /** `frequency_map_index`: the table of a frequency character. */
  function FrequencyMapIndex(frequency: char): (index: int)
    ensures -1 <= index < FREQUENCY_COUNT
    ensures '0' <= frequency <= '9' ==> index == frequency as int - '0' as int
    ensures 'A' <= frequency <= 'Z' ==> index == 10 + (frequency as int - 'A' as int)
    ensures 'a' <= frequency <= 'z' ==> index == 36 + (frequency as int - 'a' as int)
    ensures index == -1 <==> !(('0' <= frequency <= '9') || ('A' <= frequency <= 'Z') || ('a' <= frequency <= 'z'))
  {
    if '0' <= frequency <= '9' then frequency as int - '0' as int
    else if 'A' <= frequency <= 'Z' then frequency as int + 10 - 'A' as int
    else if 'a' <= frequency <= 'z' then frequency as int + 10 + 26 - 'a' as int
    else -1
  }

  /** Distinct frequencies never share a table. */
  lemma FrequencyMapIndexInjective(f: char, g: char)
    requires FrequencyMapIndex(f) != -1 && FrequencyMapIndex(f) == FrequencyMapIndex(g)
    ensures f == g
  {
  }

  // ---------------------------------------------------------------------------
  // gcd with C's truncating remainder (the result may be negative).

  function Gcd(x: int, y: int): int
    decreases Abs(y)
  {
    if y == 0 then x else Gcd(y, CRem(x, y))
  }

  /** `d` divides `n`; only 0 is divisible by 0. */
  predicate Divides(d: int, n: int) {
    if d == 0 then n == 0 else CRem(n, d) == 0
  }

  lemma DividesLinear(d: int, a: int, b: int, q: int)
    requires Divides(d, a) && Divides(d, b)
    ensures Divides(d, q * a + b)
  {
    if d != 0 {
      RemZeroIffDivides(a, d);
      RemZeroIffDivides(b, d);
      var ka, kb := CDiv(a, d), CDiv(b, d);
      Regroup(q, ka, kb, d);
      KnownQuotient(q * a + b, d, q * ka + kb);
    }
  }

  lemma Regroup(q: int, ka: int, kb: int, d: int)
    ensures q * (ka * d) + kb * d == (q * ka + kb) * d
  {
    calc {
      q * (ka * d) + kb * d;
      (q * ka) * d + kb * d;
      (q * ka + kb) * d;
    }
  }

  lemma DividesSelf(x: int)
    ensures Divides(x, x) && Divides(x, 0)
  {
    if x != 0 {
      KnownQuotient(x, x, 1);
      KnownQuotient(0, x, 0);
    }
  }

  /** The result divides both arguments. */
  lemma {:induction false} GcdDividesBoth(x: int, y: int)
    ensures Divides(Gcd(x, y), x) && Divides(Gcd(x, y), y)
    decreases Abs(y)
  {
    if y == 0 {
      DividesSelf(x);
    } else {
      var r := CRem(x, y);
      GcdDividesBoth(y, r);
      DivRemIdentity(x, y);
      DividesLinear(Gcd(x, y), y, r, CDiv(x, y));
    }
  }

  /** Every common divisor divides the result, so up to sign it is the
    * greatest common divisor. */
  lemma {:induction false} GcdGreatest(x: int, y: int, d: int)
    requires Divides(d, x) && Divides(d, y)
    ensures Divides(d, Gcd(x, y))
    decreases Abs(y)
  {
    if y != 0 {
      var r := CRem(x, y);
      DivRemIdentity(x, y);
      assert r == (-CDiv(x, y)) * y + x;
      DividesLinear(d, y, x, -CDiv(x, y));
      GcdGreatest(y, r, d);
    }
  }

  lemma {:induction false} GcdNonZero(x: int, y: int)
    requires x != 0 || y != 0
    ensures Gcd(x, y) != 0
    decreases Abs(y)
  {
    if y != 0 {
      GcdNonZero(y, CRem(x, y));
    }
  }

  // ---------------------------------------------------------------------------
  // Lines through antenna pairs.

  datatype Point = Point(row: int, col: int)

  /** The move from `a1` to `a2` divided by the gcd of its components: the
    * smallest grid step along their line. */
  function Step(a1: Point, a2: Point): Point
    requires a1 != a2
  {
    var rowDiff, colDiff := a2.row - a1.row, a2.col - a1.col;
    GcdNonZero(rowDiff, colDiff);
    var g := Gcd(rowDiff, colDiff);
    Point(CDiv(rowDiff, g), CDiv(colDiff, g))
  }

  /** `k` steps from `a` (backwards for negative `k`). */
  function Along(a: Point, step: Point, k: int): Point {
    Point(a.row + k * step.row, a.col + k * step.col)
  }

  /** Both antennas of the pair lie on the walk: `a2` is gcd steps from
    * `a1`. */
  lemma PairOnWalk(a1: Point, a2: Point)
    requires a1 != a2
    ensures Along(a1, Step(a1, a2), Gcd(a2.row - a1.row, a2.col - a1.col)) == a2
    ensures Step(a1, a2) != Point(0, 0)
  {
    var rowDiff, colDiff := a2.row - a1.row, a2.col - a1.col;
    GcdNonZero(rowDiff, colDiff);
    GcdDividesBoth(rowDiff, colDiff);
    var g := Gcd(rowDiff, colDiff);
    RemZeroIffDivides(rowDiff, g);
    RemZeroIffDivides(colDiff, g);
    assert g * CDiv(rowDiff, g) == rowDiff;
    assert g * CDiv(colDiff, g) == colDiff;
  }

  predicate InBounds(p: Point, rows: int, cols: int) {
    0 <= p.row < rows && 0 <= p.col < cols
  }

  /** `p` is a whole number of steps from `a`. */
  ghost predicate OnLine(a: Point, s: Point, p: Point) {
    exists k :: p == Along(a, s, k)
  }

  /** `p` lies on the line of the antenna pair `i < j`. */
  ghost predicate OnPairLine(antennas: seq<Point>, i: int, j: int, p: Point)
    requires 0 <= i < j < |antennas| && antennas[i] != antennas[j]
  {
    OnLine(antennas[i], Step(antennas[i], antennas[j]), p)
  }

  /** `p` lies on the line through some pair of the antennas. */
  ghost predicate IsAntinode(antennas: seq<Point>, p: Point)
    requires Distinct(antennas)
  {
    exists i, j :: 0 <= i < j < |antennas| && OnPairLine(antennas, i, j, p)
  }

  predicate Distinct(antennas: seq<Point>) {
    forall i, j :: 0 <= i < j < |antennas| ==> antennas[i] != antennas[j]
  }

  predicate AllInBounds(antennas: seq<Point>, rows: int, cols: int) {
    forall i :: 0 <= i < |antennas| ==> InBounds(antennas[i], rows, cols)
  }

  /** The in-bounds points of a line form one unbroken run. */
  lemma Convex(a: Point, s: Point, k1: int, k: int, k2: int, rows: int, cols: int)
    requires k1 <= k <= k2
    requires InBounds(Along(a, s, k1), rows, cols) && InBounds(Along(a, s, k2), rows, cols)
    ensures InBounds(Along(a, s, k), rows, cols)
  {
    Between(a.row, s.row, k1, k, k2);
    Between(a.col, s.col, k1, k, k2);
  }

  lemma Between(x: int, s: int, k1: int, k: int, k2: int)
    requires k1 <= k <= k2
    ensures (x + k1 * s <= x + k * s <= x + k2 * s) || (x + k2 * s <= x + k * s <= x + k1 * s)
  {
    if s >= 0 {
      assert (k - k1) * s >= 0;
      assert (k2 - k) * s >= 0;
    } else {
      assert (k - k1) * (-s) >= 0;
      assert (k2 - k) * (-s) >= 0;
    }
  }

  /** A walk from an in-bounds point that has just left the grid stays out
    * of it. */
  lemma StaysOut(a: Point, s: Point, m: int, t: int, rows: int, cols: int)
    requires InBounds(a, rows, cols) && !InBounds(Along(a, s, m), rows, cols)
    requires (0 <= m <= t) || (t <= m <= 0)
    ensures !InBounds(Along(a, s, t), rows, cols)
  {
    assert Along(a, s, 0) == a;
    if InBounds(Along(a, s, t), rows, cols) {
      if 0 <= m {
        Convex(a, s, 0, m, t, rows, cols);
      } else {
        Convex(a, s, t, m, 0, rows, cols);
      }
    }
  }

  /** The loop "before and including antenna1": appends `a` and the
    * in-bounds points behind it. */
  method WalkBack(a: Point, s: Point, rows: int, cols: int, antinodes: seq<Point>)
    returns (out: seq<Point>, ghost back: int)
    requires s != Point(0, 0) && InBounds(a, rows, cols)
    ensures back >= 0
    ensures forall p :: p in out <==> (p in antinodes || exists k :: -back < k <= 0 && p == Along(a, s, k))
    ensures forall k :: -back < k <= 0 ==> InBounds(Along(a, s, k), rows, cols)
    ensures !InBounds(Along(a, s, -back), rows, cols)
  {
    out := antinodes;
    var row, col := a.row, a.col;
    back := 0;
    while 0 <= row && 0 <= col && row < rows && col < cols
      invariant back >= 0 && Point(row, col) == Along(a, s, -back)
      invariant forall p :: p in out <==> (p in antinodes || exists k :: -back < k <= 0 && p == Along(a, s, k))
      invariant forall k :: -back < k <= 0 ==> InBounds(Along(a, s, k), rows, cols)
      decreases if s.row > 0 then row + 1 else if s.row < 0 then rows - row
                else if s.col > 0 then col + 1 else cols - col
    {
      out := out + [Point(row, col)];
      row, col := row - s.row, col - s.col;
      back := back + 1;
    }
  }

  /** The loop "after antenna1": appends the in-bounds points ahead of `a`. */
  method WalkAhead(a: Point, s: Point, rows: int, cols: int, antinodes: seq<Point>)
    returns (out: seq<Point>, ghost ahead: nat)
    requires s != Point(0, 0)
    ensures ahead >= 1
    ensures forall p :: p in out <==> (p in antinodes || exists k :: 0 < k < ahead && p == Along(a, s, k))
    ensures forall k :: 0 < k < ahead ==> InBounds(Along(a, s, k), rows, cols)
    ensures !InBounds(Along(a, s, ahead), rows, cols)
  {
    out := antinodes;
    var row, col := a.row + s.row, a.col + s.col;
    ahead := 1;
    while 0 <= row && 0 <= col && row < rows && col < cols
      invariant ahead >= 1 && Point(row, col) == Along(a, s, ahead)
      invariant forall p :: p in out <==> (p in antinodes || exists k :: 0 < k < ahead && p == Along(a, s, k))
      invariant forall k :: 0 < k < ahead ==> InBounds(Along(a, s, k), rows, cols)
      decreases if s.row > 0 then rows - row else if s.row < 0 then row + 1
                else if s.col > 0 then cols - col else col + 1
    {
      out := out + [Point(row, col)];
      row, col := row + s.row, col + s.col;
      ahead := ahead + 1;
    }
  }

  /** Both walks from `a` together append exactly the in-bounds points of
    * its line. */
  method WalkLine(a: Point, s: Point, rows: int, cols: int, antinodes: seq<Point>) returns (out: seq<Point>)
    requires s != Point(0, 0) && InBounds(a, rows, cols)
    ensures forall p :: p in out <==> (p in antinodes || (InBounds(p, rows, cols) && OnLine(a, s, p)))
  {
    ghost var back, ahead;
    out, back := WalkBack(a, s, rows, cols, antinodes);
    out, ahead := WalkAhead(a, s, rows, cols, out);
    forall p ensures p in out <==> (p in antinodes || (InBounds(p, rows, cols) && OnLine(a, s, p))) {
      if InBounds(p, rows, cols) && OnLine(a, s, p) {
        var k :| p == Along(a, s, k);
        assert Along(a, s, 0) == a;
        if k <= -back {
          StaysOut(a, s, -back, k, rows, cols);
        } else if k >= ahead {
          StaysOut(a, s, ahead, k, rows, cols);
        }
      }
    }
  }

  /** The inner loop of `find_possible_antinodes`: the lines of antenna
    * `i` paired with every later antenna. */
  method AddPairLines(antennas: seq<Point>, i: int, rows: int, cols: int, antinodes: seq<Point>)
    returns (out: seq<Point>)
    requires 0 <= i < |antennas| && Distinct(antennas) && AllInBounds(antennas, rows, cols)
    ensures forall p :: p in out <==> (p in antinodes ||
      (InBounds(p, rows, cols) && exists j' :: i < j' < |antennas| && OnPairLine(antennas, i, j', p)))
  {
    out := antinodes;
    var antenna1 := antennas[i];
    var j := i + 1;
    while j < |antennas|
      invariant i + 1 <= j <= |antennas|
      invariant forall p :: p in out <==> (p in antinodes ||
        (InBounds(p, rows, cols) && exists j' :: i < j' < j && OnPairLine(antennas, i, j', p)))
    {
      var antenna2 := antennas[j];
      PairOnWalk(antenna1, antenna2);
      ghost var before := out;
      out := WalkLine(antenna1, Step(antenna1, antenna2), rows, cols, out);
      assert forall p :: p in out <==> (p in before || (InBounds(p, rows, cols) && OnPairLine(antennas, i, j, p)));
      j := j + 1;
    }
  }

  /** `find_possible_antinodes`: every in-bounds point on the line of some
    * antenna pair, possibly more than once. */
  method FindPossibleAntinodes(antennas: seq<Point>, rows: int, cols: int) returns (antinodes: seq<Point>)
    requires |antennas| >= 1 && Distinct(antennas) && AllInBounds(antennas, rows, cols)
    ensures forall p :: p in antinodes <==> (InBounds(p, rows, cols) && IsAntinode(antennas, p))
  {
    antinodes := [];
    var i := 0;
    while i < |antennas| - 1
      invariant 0 <= i <= |antennas| - 1
      invariant forall p :: p in antinodes <==> (InBounds(p, rows, cols) &&
        exists i', j' :: 0 <= i' < i && i' < j' < |antennas| && OnPairLine(antennas, i', j', p))
    {
      ghost var before := antinodes;
      antinodes := AddPairLines(antennas, i, rows, cols, antinodes);
      forall p ensures p in antinodes <==> (InBounds(p, rows, cols) &&
        exists i', j' :: 0 <= i' < i + 1 && i' < j' < |antennas| && OnPairLine(antennas, i', j', p))
      {
        if InBounds(p, rows, cols) && exists i', j' :: 0 <= i' < i + 1 && i' < j' < |antennas| && OnPairLine(antennas, i', j', p) {
          var i', j' :| 0 <= i' < i + 1 && i' < j' < |antennas| && OnPairLine(antennas, i', j', p);
          if i' == i {
            assert exists j' :: i < j' < |antennas| && OnPairLine(antennas, i, j', p);
          }
        }
      }
      i := i + 1;
    }
    assert |antennas| - 1 <= i;
  }

  /** The in-bounds antinodes of one frequency's antennas. */
  ghost function LineCells(antennas: seq<Point>, rows: int, cols: int): set<Point>
    requires Distinct(antennas)
  {
    set r, c | 0 <= r < rows && 0 <= c < cols && IsAntinode(antennas, Point(r, c)) :: Point(r, c)
  }

  lemma LineCellsMembership(antennas: seq<Point>, rows: int, cols: int, p: Point)
    requires Distinct(antennas)
    ensures p in LineCells(antennas, rows, cols) <==> InBounds(p, rows, cols) && IsAntinode(antennas, p)
  {
    if InBounds(p, rows, cols) && IsAntinode(antennas, p) {
      assert Point(p.row, p.col) == p;
    }
  }

  lemma PossibleIsLine(antennas: seq<Point>, possible: seq<Point>, rows: int, cols: int)
    requires Distinct(antennas)
    requires forall p :: p in possible <==> (InBounds(p, rows, cols) && IsAntinode(antennas, p))
    ensures (set p | p in possible) == LineCells(antennas, rows, cols)
  {
    forall p ensures p in possible <==> p in LineCells(antennas, rows, cols) {
      LineCellsMembership(antennas, rows, cols, p);
    }
  }

  predicate ValidTables(tables: seq<seq<Point>>, rows: int, cols: int) {
    forall i :: 0 <= i < |tables| ==> Distinct(tables[i]) && AllInBounds(tables[i], rows, cols)
  }

  /** The cells `count_antinodes` marks: the antinodes of every frequency
    * with at least two antennas. */
  ghost function AntinodeCells(tables: seq<seq<Point>>, rows: int, cols: int): (cells: set<Point>)
    requires ValidTables(tables, rows, cols)
    ensures forall p :: p in cells ==> InBounds(p, rows, cols)
  {
    if |tables| == 0 then {}
    else
      var last := tables[|tables| - 1];
      AntinodeCells(tables[..|tables| - 1], rows, cols) + (if |last| >= 2 then LineCells(last, rows, cols) else {})
  }

  /** The cells of `cells` on the grid not yet marked '#'. */
  ghost function Unmarked(cells: set<Point>, grid: array2<char>): set<Point>
    reads grid
  {
    set p | p in cells && InBounds(p, grid.Length0, grid.Length1) && grid[p.row, p.col] != '#'
  }

  /** The filtering loop of `count_antinodes` for one frequency: marks
    * each listed cell with '#', counting the cells not marked before. */
  method MarkCells(grid: array2<char>, cells: seq<Point>) returns (added: int)
    modifies grid
    ensures forall r, c :: 0 <= r < grid.Length0 && 0 <= c < grid.Length1 ==>
      grid[r, c] == (if Point(r, c) in cells then '#' else old(grid[r, c]))
    ensures added == |old(Unmarked((set p | p in cells), grid))|
  {
    added := 0;
    ghost var marked: set<Point> := {};
    var j := 0;
    while j < |cells|
      invariant 0 <= j <= |cells|
      invariant forall r, c :: 0 <= r < grid.Length0 && 0 <= c < grid.Length1 ==>
        grid[r, c] == (if Point(r, c) in cells[..j] then '#' else old(grid[r, c]))
      invariant marked == old(Unmarked((set p | p in cells[..j]), grid))
      invariant added == |marked|
    {
      var antinode := cells[j];
      assert cells[..j + 1] == cells[..j] + [antinode];
      if antinode.row >= 0 && antinode.col >= 0 && antinode.row < grid.Length0 && antinode.col < grid.Length1
         && grid[antinode.row, antinode.col] != '#'
      {
        added := added + 1;
        grid[antinode.row, antinode.col] := '#';
        marked := marked + {antinode};
      }
      j := j + 1;
    }
    assert cells[..j] == cells;
  }

  /** The cells of the grid marked '#'. */
  ghost function Marked(grid: array2<char>): set<Point>
    reads grid
  {
    set r, c | 0 <= r < grid.Length0 && 0 <= c < grid.Length1 && grid[r, c] == '#' :: Point(r, c)
  }

  lemma MarkedMembership(grid: array2<char>)
    ensures forall r, c :: 0 <= r < grid.Length0 && 0 <= c < grid.Length1 ==> (Point(r, c) in Marked(grid) <==> grid[r, c] == '#')
  {
  }

  /** One frequency of `count_antinodes`: marks its antinodes and counts
    * those neither marked by an earlier frequency (`covered`) nor marked
    * on the map from the start (`marked0`). */
  method MarkFrequency(grid: array2<char>, antennas: seq<Point>, ghost covered: set<Point>, ghost marked0: set<Point>)
    returns (added: int)
    requires |antennas| >= 2 && Distinct(antennas) && AllInBounds(antennas, grid.Length0, grid.Length1)
    requires forall r, c :: 0 <= r < grid.Length0 && 0 <= c < grid.Length1 ==>
      (grid[r, c] == '#' <==> Point(r, c) in covered || Point(r, c) in marked0)
    modifies grid
    ensures forall r, c :: 0 <= r < grid.Length0 && 0 <= c < grid.Length1 ==>
      grid[r, c] == (if Point(r, c) in LineCells(antennas, grid.Length0, grid.Length1) then '#' else old(grid[r, c]))
    ensures added == |LineCells(antennas, grid.Length0, grid.Length1) - covered - marked0|
  {
    var rows, cols := grid.Length0, grid.Length1;
    var possible := FindPossibleAntinodes(antennas, rows, cols);
    ghost var line := LineCells(antennas, rows, cols);
    PossibleIsLine(antennas, possible, rows, cols);
    forall p | p in line
      ensures p in Unmarked(line, grid) <==> p !in covered && p !in marked0
    {
      LineCellsMembership(antennas, rows, cols, p);
      assert Point(p.row, p.col) == p;
    }
    assert Unmarked(line, grid) == line - covered - marked0;
    added := MarkCells(grid, possible);
  }

  /** `count_antinodes`: marks every antinode cell with '#' and counts the
    * cells that were not already marked, each once. */
  method CountAntinodes(grid: array2<char>, tables: seq<seq<Point>>) returns (antinodeCount: int)
    requires ValidTables(tables, grid.Length0, grid.Length1)
    modifies grid
    ensures forall r, c :: 0 <= r < grid.Length0 && 0 <= c < grid.Length1 ==>
      grid[r, c] == (if Point(r, c) in AntinodeCells(tables, grid.Length0, grid.Length1) then '#' else old(grid[r, c]))
    ensures antinodeCount == |AntinodeCells(tables, grid.Length0, grid.Length1) - old(Marked(grid))|
  {
    var rows, cols := grid.Length0, grid.Length1;
    ghost var marked0 := Marked(grid);
    MarkedMembership(grid);
    antinodeCount := 0;
    ghost var covered: set<Point> := {};
    var i := 0;
    while i < |tables|
      invariant 0 <= i <= |tables|
      invariant covered == AntinodeCells(tables[..i], rows, cols)
      invariant forall r, c :: 0 <= r < rows && 0 <= c < cols ==>
        grid[r, c] == (if Point(r, c) in covered then '#' else old(grid[r, c]))
      invariant antinodeCount == |covered - marked0|
      invariant forall r, c :: 0 <= r < rows && 0 <= c < cols ==> (Point(r, c) in marked0 <==> old(grid[r, c]) == '#')
    {
      antinodeCount := CountFrequency(grid, tables, i, covered, marked0, antinodeCount);
      AntinodeCellsStep(tables, i, rows, cols);
      covered := AntinodeCells(tables[..i + 1], rows, cols);
      i := i + 1;
    }
    assert tables[..i] == tables;
  }

  /** The body of the loop of `count_antinodes` over frequency tables. */
  method CountFrequency(grid: array2<char>, tables: seq<seq<Point>>, i: int, ghost covered: set<Point>,
                        ghost marked0: set<Point>, antinodeCount: int) returns (count: int)
    requires ValidTables(tables, grid.Length0, grid.Length1) && 0 <= i < |tables|
    requires forall r, c :: 0 <= r < grid.Length0 && 0 <= c < grid.Length1 ==>
      (grid[r, c] == '#' <==> Point(r, c) in covered || Point(r, c) in marked0)
    requires antinodeCount == |covered - marked0|
    modifies grid
    ensures var cells := if |tables[i]| >= 2 then LineCells(tables[i], grid.Length0, grid.Length1) else {};
      (forall r, c :: 0 <= r < grid.Length0 && 0 <= c < grid.Length1 ==>
        grid[r, c] == (if Point(r, c) in cells then '#' else old(grid[r, c]))) &&
      count == |(covered + cells) - marked0|
  {
    count := antinodeCount;
    if |tables[i]| >= 2 {
      var added := MarkFrequency(grid, tables[i], covered, marked0);
      count := count + added;
      DisjointGrowth(covered, LineCells(tables[i], grid.Length0, grid.Length1), marked0);
    } else {
      assert covered + {} == covered;
    }
  }

  lemma DisjointGrowth(covered: set<Point>, line: set<Point>, marked0: set<Point>)
    ensures |(covered + line) - marked0| == |covered - marked0| + |line - covered - marked0|
  {
    assert (covered + line) - marked0 == (covered - marked0) + (line - covered - marked0);
  }

  lemma AntinodeCellsStep(tables: seq<seq<Point>>, i: int, rows: int, cols: int)
    requires ValidTables(tables, rows, cols) && 0 <= i < |tables|
    ensures ValidTables(tables[..i + 1], rows, cols)
    ensures AntinodeCells(tables[..i + 1], rows, cols)
      == AntinodeCells(tables[..i], rows, cols) + (if |tables[i]| >= 2 then LineCells(tables[i], rows, cols) else {})
  {
    assert tables[..i + 1][..i] == tables[..i];
  }

  /** On a map parsed from the input, which has no '#', the count is the
    * number of distinct antinode cells. */
  lemma CountOnFreshMap(grid: array2<char>, cells: set<Point>)
    requires forall r, c :: 0 <= r < grid.Length0 && 0 <= c < grid.Length1 ==> grid[r, c] != '#'
    ensures cells - Marked(grid) == cells
  {
    assert Marked(grid) == {};
  }
}
