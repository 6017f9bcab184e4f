// Day 9, part 1: a disk map lists, alternately, the size of each file and
// of the free space after it.  Compaction moves file blocks one at a time
// from the end of the disk into the leftmost free block until no gap is
// left, and the checksum adds up each block's position times its file id.
// The solver does this with two cursors over the size arrays, counting
// the arrays down in place, without building the disk.

module DiskFragmenter {
  const FREE: int := -1
  /** `unsigned long long` arithmetic wraps modulo 2^64. */
  const WORD: int := 0x1_0000_0000_0000_0000

  // ---- The disk, block by block ----

  /** `n` copies of `x`. */
  function Rep(x: int, n: int): (r: seq<int>)
    ensures |r| == if n < 0 then 0 else n
    decreases n
  {
    if n <= 0 then [] else Rep(x, n - 1) + [x]
  }

  lemma {:induction false} RepFront(x: int, n: int)
    requires n > 0
    ensures Rep(x, n) == [x] + Rep(x, n - 1)
    decreases n
  {
    if n > 1 {
      RepFront(x, n - 1);
    }
  }

  /** The free space after file `i`; the disk map may end without one. */
  function Gap(free: seq<int>, i: int): int {
    if 0 <= i < |free| then free[i] else 0
  }

  /** The disk from file `i` on: each file's blocks, then its free space. */
  function Disk(files: seq<int>, free: seq<int>, i: nat): seq<int>
    decreases |files| - i
  {
    if i >= |files| then []
    else Rep(i, files[i]) + Rep(FREE, Gap(free, i)) + Disk(files, free, i + 1)
  }

  /** The blocks still to be compacted when the front cursor is on file `s`
    * and the back cursor on file `e`: what is left of file `s`, its free
    * space, the untouched files in between with their gaps, and what is
    * left of file `e` (a gap after `e` is trailing space). */
  function Span(files: seq<int>, free: seq<int>, s: int, e: int): seq<int>
    requires 0 <= s && e < |files|
    decreases e - s
  {
    if s > e then []
    else if s == e then Rep(s, files[s])
    else Rep(s, files[s]) + Rep(FREE, Gap(free, s)) + Span(files, free, s + 1, e)
  }

  /** Compaction of a disk: a file block at the front stays, free space at
    * the back is dropped, and otherwise the last block fills the first
    * free one. */
  function Compact(b: seq<int>): seq<int>
    decreases |b|
  {
    if |b| == 0 then []
    else if b[|b| - 1] == FREE then Compact(b[..|b| - 1])
    else if b[0] != FREE then [b[0]] + Compact(b[1..])
    else [b[|b| - 1]] + Compact(b[1..|b| - 1])
  }

  /** `c` holds the file blocks of `b`, each as often, and no free block. */
  ghost predicate SameBlocks(c: seq<int>, b: seq<int>) {
    (forall x :: x != FREE ==> multiset(c)[x] == multiset(b)[x]) && FREE !in c
  }

  /** The compacted disk holds every file block of `b` exactly once and no
    * free block. */
  lemma {:induction false} CompactBlocks(b: seq<int>)
    ensures SameBlocks(Compact(b), b)
    decreases |b|
  {
    if |b| == 0 {
    } else if b[|b| - 1] == FREE {
      CompactBlocks(b[..|b| - 1]);
      BlocksDropFree(Compact(b[..|b| - 1]), b);
    } else if b[0] != FREE {
      CompactBlocks(b[1..]);
      BlocksKeepFront(Compact(b[1..]), b);
    } else {
      CompactBlocks(b[1..|b| - 1]);
      BlocksFillFront(Compact(b[1..|b| - 1]), b);
    }
  }

  lemma BlocksDropFree(c: seq<int>, b: seq<int>)
    requires |b| > 0 && b[|b| - 1] == FREE && SameBlocks(c, b[..|b| - 1])
    ensures SameBlocks(c, b)
  {
    var p := b[..|b| - 1];
    assert b == p + [FREE];
    assert multiset(b) == multiset(p) + multiset{FREE};
  }

  lemma BlocksKeepFront(c: seq<int>, b: seq<int>)
    requires |b| > 0 && b[0] != FREE && SameBlocks(c, b[1..])
    ensures SameBlocks([b[0]] + c, b)
  {
    var x, p := b[0], b[1..];
    assert b == [x] + p;
    assert multiset([x] + c) == multiset{x} + multiset(c);
    assert multiset(b) == multiset{x} + multiset(p);
  }

  lemma BlocksFillFront(c: seq<int>, b: seq<int>)
    requires |b| >= 2 && b[0] == FREE && b[|b| - 1] != FREE && SameBlocks(c, b[1..|b| - 1])
    ensures SameBlocks([b[|b| - 1]] + c, b)
  {
    var x, p := b[|b| - 1], b[1..|b| - 1];
    assert b == [FREE] + p + [x];
    assert multiset([x] + c) == multiset{x} + multiset(c);
    assert multiset(b) == multiset{FREE} + multiset(p) + multiset{x};
  }

  /** A file block at the front stays there, whatever follows it. */
  lemma {:induction false} CompactFront(b: seq<int>)
    requires |b| > 0 && b[0] != FREE
    ensures Compact(b) == [b[0]] + Compact(b[1..])
    decreases |b|
  {
    if b[|b| - 1] == FREE {
      var b' := b[..|b| - 1];
      CompactFront(b');
      assert b'[1..] == b[1..][..|b[1..]| - 1];
    }
  }

  lemma CompactDropFree(p: seq<int>)
    ensures Compact(p + [FREE]) == Compact(p)
  {
    var c := p + [FREE];
    assert c[..|c| - 1] == p;
  }

  /** Free space at the back of the disk changes nothing. */
  lemma {:induction false} CompactTrailing(b: seq<int>, k: int)
    ensures Compact(b + Rep(FREE, k)) == Compact(b)
    decreases k
  {
    if k > 0 {
      var p := b + Rep(FREE, k - 1);
      assert b + Rep(FREE, k) == p + [FREE];
      CompactDropFree(p);
      CompactTrailing(b, k - 1);
    } else {
      assert b + Rep(FREE, k) == b;
    }
  }

  /** A span depends only on the sizes inside it. */
  lemma {:induction false} SpanFrame(files: seq<int>, files': seq<int>, free: seq<int>, free': seq<int>, s: int, e: int)
    requires 0 <= s && e < |files| && e < |files'|
    requires forall i :: s <= i <= e ==> files[i] == files'[i]
    requires forall i :: s <= i < e ==> Gap(free, i) == Gap(free', i)
    ensures Span(files, free, s, e) == Span(files', free', s, e)
    decreases e - s
  {
    if s < e {
      SpanFrame(files, files', free, free', s + 1, e);
    }
  }

  /** An empty file under the back cursor leaves only trailing space
    * after the file before it. */
  lemma {:induction false} SpanDropEmptyLast(files: seq<int>, free: seq<int>, s: int, e: int)
    requires 0 <= s < e < |files| && files[e] == 0
    ensures Span(files, free, s, e) == Span(files, free, s, e - 1) + Rep(FREE, Gap(free, e - 1))
    decreases e - s
  {
    var trailing := Rep(FREE, Gap(free, e - 1));
    if s < e - 1 {
      SpanDropEmptyLast(files, free, s + 1, e);
      SpanFront(files, free, s, e);
      SpanFront(files, free, s, e - 1);
      var head := Rep(s, files[s]) + Rep(FREE, Gap(free, s));
      var inner := Span(files, free, s + 1, e - 1);
      assert head + (inner + trailing) == (head + inner) + trailing;
    } else {
      SpanPair(files, free, s);
    }
  }

  lemma SpanPair(files: seq<int>, free: seq<int>, s: int)
    requires 0 <= s && s + 1 < |files| && files[s + 1] == 0
    ensures Span(files, free, s, s + 1) == Span(files, free, s, s) + Rep(FREE, Gap(free, s))
  {
    var lead := Rep(s, files[s]);
    var trailing := Rep(FREE, Gap(free, s));
    assert Span(files, free, s + 1, s + 1) == [];
    assert Span(files, free, s, s + 1) == lead + trailing + [];
    assert lead + trailing + [] == lead + trailing;
  }

  /** Taking a block from the file under the back cursor takes the last
    * block of the span. */
  lemma {:induction false} SpanDropLast(files: seq<int>, free: seq<int>, s: int, e: int)
    requires 0 <= s <= e < |files| && files[e] > 0
    ensures Span(files[e := files[e] - 1], free, s, e) + [e] == Span(files, free, s, e)
    decreases e - s
  {
    if s < e {
      SpanDropLast(files, free, s + 1, e);
    }
  }

  /** The whole disk is the span from the first file to the last, then the
    * trailing space. */
  lemma {:induction false} DiskSpan(files: seq<int>, free: seq<int>, i: nat)
    requires i < |files|
    ensures Disk(files, free, i) == Span(files, free, i, |files| - 1) + Rep(FREE, Gap(free, |files| - 1))
    decreases |files| - i
  {
    if i < |files| - 1 {
      DiskSpan(files, free, i + 1);
    }
  }

  // ---- The rounds of the two-cursor loop ----

  /** A block of the file under the front cursor is the next block of the
    * compacted disk. */
  lemma FrontStep(files: seq<int>, free: seq<int>, s: int, e: int)
    requires 0 <= s <= e < |files| && files[s] > 0
    ensures var files' := files[s := files[s] - 1];
      Compact(Span(files, free, s, e)) == [s] + Compact(Span(files', free, s, e)) &&
      |Span(files', free, s, e)| < |Span(files, free, s, e)|
  {
    var files' := files[s := files[s] - 1];
    var lead := Rep(s, files[s] - 1);
    RepFront(s, files[s]);
    if s < e {
      var gap := Rep(FREE, Gap(free, s));
      var tail := Span(files, free, s + 1, e);
      SpanFrame(files, files', free, free, s + 1, e);
      SpanFront(files, free, s, e);
      SpanFront(files', free, s, e);
      assert Span(files, free, s, e) == ([s] + lead) + gap + tail;
      assert Span(files', free, s, e) == lead + gap + tail;
      assert ([s] + lead) + gap + tail == [s] + (lead + gap + tail);
    }
    assert Span(files, free, s, e) == [s] + Span(files', free, s, e);
    CompactFront(Span(files, free, s, e));
  }

  /** An empty file under the back cursor is passed over: the compacted
    * disk is the same without it. */
  lemma SkipEmptyEnd(files: seq<int>, free: seq<int>, s: int, e: int)
    requires 0 <= s <= e < |files| && files[e] == 0
    ensures Compact(Span(files, free, s, e)) == Compact(Span(files, free, s, e - 1))
    ensures |Span(files, free, s, e - 1)| <= |Span(files, free, s, e)|
  {
    if s < e {
      SpanDropEmptyLast(files, free, s, e);
      CompactTrailing(Span(files, free, s, e - 1), Gap(free, e - 1));
    }
  }

  lemma SpanFront(files: seq<int>, free: seq<int>, s: int, e: int)
    requires 0 <= s < e < |files|
    ensures Span(files, free, s, e) == Rep(s, files[s]) + Rep(FREE, Gap(free, s)) + Span(files, free, s + 1, e)
  {
  }

  /** A free block at the front takes the last block of the disk. */
  lemma CompactBack(b: seq<int>)
    requires |b| >= 2 && b[0] == FREE && b[|b| - 1] != FREE
    ensures Compact(b) == [b[|b| - 1]] + Compact(b[1..|b| - 1])
  {
  }

  /** The span before a round that fills a free block from the back. */
  lemma BackSpanBefore(files: seq<int>, free: seq<int>, s: int, e: int)
    requires 0 <= s < e < |files| && s < |free|
    requires files[s] == 0 && free[s] > 0 && files[e] > 0
    ensures Span(files, free, s, e) ==
      [FREE] + (Rep(FREE, free[s] - 1) + Span(files[e := files[e] - 1], free, s + 1, e)) + [e]
  {
    var lead := Rep(s, files[s]);
    var gap := Rep(FREE, free[s] - 1);
    var rest := Span(files[e := files[e] - 1], free, s + 1, e);
    SpanFront(files, free, s, e);
    SpanDropLast(files, free, s + 1, e);
    RepFront(FREE, free[s]);
    assert lead == [];
    assert Span(files, free, s, e) == lead + ([FREE] + gap) + (rest + [e]);
    assert lead + ([FREE] + gap) == [FREE] + gap;
    assert ([FREE] + gap) + (rest + [e]) == [FREE] + (gap + rest) + [e];
  }

  /** The span after it. */
  lemma BackSpanAfter(files: seq<int>, free: seq<int>, s: int, e: int)
    requires 0 <= s < e < |files| && s < |free|
    requires files[s] == 0 && free[s] > 0 && files[e] > 0
    ensures var files' := files[e := files[e] - 1];
      Span(files', free[s := free[s] - 1], s, e) == Rep(FREE, free[s] - 1) + Span(files', free, s + 1, e)
  {
    var files' := files[e := files[e] - 1];
    var free' := free[s := free[s] - 1];
    var tail := Span(files', free', s + 1, e);
    SpanFrame(files', files', free, free', s + 1, e);
    assert tail == Span(files', free, s + 1, e);
    SpanFront(files', free', s, e);
    var lead := Rep(s, files'[s]);
    assert lead == [];
    var gap := Rep(FREE, Gap(free', s));
    assert gap == Rep(FREE, free[s] - 1);
    assert Span(files', free', s, e) == lead + gap + tail;
    assert lead + gap == gap;
  }

  /** With the front file used up, the next free block takes the last
    * block of the file under the back cursor. */
  lemma BackStep(files: seq<int>, free: seq<int>, s: int, e: int)
    requires 0 <= s <= e < |files| && s < |free|
    requires files[s] == 0 && free[s] > 0 && files[e] > 0
    ensures s < e
    ensures var files' := files[e := files[e] - 1];
      var free' := free[s := free[s] - 1];
      Compact(Span(files, free, s, e)) == [e] + Compact(Span(files', free', s, e)) &&
      |Span(files', free', s, e)| < |Span(files, free, s, e)|
  {
    assert s < e;
    var middle := Rep(FREE, free[s] - 1) + Span(files[e := files[e] - 1], free, s + 1, e);
    var b := [FREE] + middle + [e];
    BackSpanBefore(files, free, s, e);
    BackSpanAfter(files, free, s, e);
    CompactBack(b);
    assert b[1..|b| - 1] == middle;
  }

  /** The sum of each block's position times its file id. */
  function Weighted(c: seq<int>): int {
    if |c| == 0 then 0 else Weighted(c[..|c| - 1]) + (|c| - 1) * c[|c| - 1]
  }

  lemma WeightedAppend(c: seq<int>, x: int)
    ensures Weighted(c + [x]) == Weighted(c) + |c| * x
  {
    assert (c + [x])[..|c|] == c;
  }

  lemma AddMod(a: int, b: int)
    ensures (a % WORD + b) % WORD == (a + b) % WORD
  {
    var q := a / WORD;
    assert a == q * WORD + a % WORD;
    assert a + b == (a % WORD + b) + q * WORD;
  }

  /** Placing block `x` at position `pos` adds `pos * x` to the checksum. */
  lemma ChecksumStep(placed: seq<int>, checksum: int, pos: int, x: int)
    requires pos == |placed| && checksum == Weighted(placed) % WORD
    ensures (checksum + pos * x) % WORD == Weighted(placed + [x]) % WORD
  {
    WeightedAppend(placed, x);
    AddMod(Weighted(placed), pos * x);
  }

  /** Every size is still between zero and where it started. */
  ghost predicate Within(a: seq<int>, a0: seq<int>) {
    |a| == |a0| && forall i :: 0 <= i < |a| ==> 0 <= a[i] <= a0[i]
  }

  lemma WithinCountDown(a: seq<int>, a0: seq<int>, i: int)
    requires Within(a, a0) && 0 <= i < |a| && a[i] > 0
    ensures Within(a[i := a[i] - 1], a0)
  {
  }

  /** The invariant of the two-cursor loop: the blocks placed so far, then
    * the compaction of the span between the cursors, make the compacted
    * disk; the position counts the blocks placed, and the checksum is theirs. */
  ghost predicate Progress(files: seq<int>, free: seq<int>, start: int, end: int, pos: int, checksum: int,
                           placed: seq<int>, goal: seq<int>) {
    0 <= start <= end + 1 && end < |files| &&
    pos == |placed| && checksum == Weighted(placed) % WORD &&
    goal == placed + Compact(Span(files, free, start, end))
  }

  ghost function Measure(files: seq<int>, free: seq<int>, start: int, end: int): int
    requires 0 <= start && end < |files|
  {
    |Span(files, free, start, end)| + end - start + 1
  }

  /** Placing the next block of the compacted disk at the next position. */
  lemma Place(placed: seq<int>, goal: seq<int>, pos: int, checksum: int, x: int, b: seq<int>, b': seq<int>)
    requires pos == |placed| && checksum == Weighted(placed) % WORD
    requires goal == placed + Compact(b) && Compact(b) == [x] + Compact(b')
    ensures pos + 1 == |placed + [x]| && (checksum + pos * x) % WORD == Weighted(placed + [x]) % WORD
    ensures goal == (placed + [x]) + Compact(b')
  {
    ChecksumStep(placed, checksum, pos, x);
    var rest := Compact(b');
    assert placed + ([x] + rest) == (placed + [x]) + rest;
  }

  /** A block from the front file goes to the next position. */
  lemma FrontRound(files: seq<int>, free: seq<int>, start: int, end: int, pos: int, checksum: int,
                   placed: seq<int>, goal: seq<int>)
    requires Progress(files, free, start, end, pos, checksum, placed, goal)
    requires start <= end && files[start] > 0
    ensures var files' := files[start := files[start] - 1];
      Progress(files', free, start, end, pos + 1, (checksum + pos * start) % WORD, placed + [start], goal) &&
      0 <= Measure(files', free, start, end) < Measure(files, free, start, end)
  {
    var files' := files[start := files[start] - 1];
    FrontStep(files, free, start, end);
    Place(placed, goal, pos, checksum, start, Span(files, free, start, end), Span(files', free, start, end));
  }

  /** An empty back file is passed over; nothing is placed. */
  lemma SkipRound(files: seq<int>, free: seq<int>, start: int, end: int, pos: int, checksum: int,
                  placed: seq<int>, goal: seq<int>)
    requires Progress(files, free, start, end, pos, checksum, placed, goal)
    requires start <= end && files[end] == 0
    ensures Progress(files, free, start, end - 1, pos, checksum, placed, goal)
    ensures 0 <= Measure(files, free, start, end - 1) < Measure(files, free, start, end)
  {
    SkipEmptyEnd(files, free, start, end);
  }

  /** A block from the back file fills the next free block. */
  lemma BackRound(files: seq<int>, free: seq<int>, start: int, end: int, pos: int, checksum: int,
                  placed: seq<int>, goal: seq<int>)
    requires Progress(files, free, start, end, pos, checksum, placed, goal)
    requires start <= end && start < |free| && files[start] == 0 && free[start] > 0 && files[end] > 0
    ensures start < end
    ensures var files' := files[end := files[end] - 1];
      var free' := free[start := free[start] - 1];
      Progress(files', free', start, end, pos + 1, (checksum + pos * end) % WORD, placed + [end], goal) &&
      0 <= Measure(files', free', start, end) < Measure(files, free, start, end)
  {
    var files' := files[end := files[end] - 1];
    var free' := free[start := free[start] - 1];
    BackStep(files, free, start, end);
    Place(placed, goal, pos, checksum, end, Span(files, free, start, end), Span(files', free', start, end));
  }

  /** A front file and gap both used up: the front cursor moves on. */
  lemma NextRound(files: seq<int>, free: seq<int>, start: int, end: int, pos: int, checksum: int,
                  placed: seq<int>, goal: seq<int>)
    requires Progress(files, free, start, end, pos, checksum, placed, goal)
    requires start <= end && files[start] == 0 && Gap(free, start) == 0
    ensures Progress(files, free, start + 1, end, pos, checksum, placed, goal)
    ensures 0 <= Measure(files, free, start + 1, end) < Measure(files, free, start, end)
  {
    var lead := Rep(start, files[start]);
    var gap := Rep(FREE, Gap(free, start));
    assert lead == [] && gap == [];
    if start < end {
      SpanFront(files, free, start, end);
      var tail := Span(files, free, start + 1, end);
      assert lead + gap + tail == tail;
    }
    assert Span(files, free, start, end) == Span(files, free, start + 1, end);
  }

  /** `a[i]--`. */
  method CountDown(a: array<int>, i: int)
    requires 0 <= i < a.Length
    modifies a
    ensures a[..] == old(a[..])[i := old(a[i]) - 1]
  {
    a[i] := a[i] - 1;
  }

  /** `checksum += pos * start; files[start]--`. */
  method TakeFront(files: array<int>, freeSpace: array<int>, start: int, end: int, pos: int, checksum: int,
                   ghost placed: seq<int>, ghost goal: seq<int>, ghost F0: seq<int>)
    returns (checksum': int)
    requires files != freeSpace && start <= end && Within(files[..], F0)
    requires Progress(files[..], freeSpace[..], start, end, pos, checksum, placed, goal)
    requires files[start] != 0
    modifies files
    ensures Within(files[..], F0)
    ensures Progress(files[..], freeSpace[..], start, end, pos + 1, checksum', placed + [start], goal)
    ensures 0 <= Measure(files[..], freeSpace[..], start, end) < old(Measure(files[..], freeSpace[..], start, end))
  {
    ghost var F := files[..];
    assert F[start] > 0;
    FrontRound(F, freeSpace[..], start, end, pos, checksum, placed, goal);
    WithinCountDown(F, F0, start);
    checksum' := (checksum + pos * start) % WORD;
    CountDown(files, start);
  }

  /** `checksum += pos * end; free_space[start]--; files[end]--`. */
  method FillGap(files: array<int>, freeSpace: array<int>, start: int, end: int, pos: int, checksum: int,
                 ghost placed: seq<int>, ghost goal: seq<int>, ghost F0: seq<int>, ghost G0: seq<int>)
    returns (checksum': int)
    requires files != freeSpace && start <= end && start < freeSpace.Length
    requires Within(files[..], F0) && Within(freeSpace[..], G0)
    requires Progress(files[..], freeSpace[..], start, end, pos, checksum, placed, goal)
    requires files[start] == 0 && freeSpace[start] != 0 && files[end] != 0
    modifies files, freeSpace
    ensures Within(files[..], F0) && Within(freeSpace[..], G0)
    ensures Progress(files[..], freeSpace[..], start, end, pos + 1, checksum', placed + [end], goal)
    ensures 0 <= Measure(files[..], freeSpace[..], start, end) < old(Measure(files[..], freeSpace[..], start, end))
  {
    ghost var F, G := files[..], freeSpace[..];
    BackRound(F, G, start, end, pos, checksum, placed, goal);
    WithinCountDown(F, F0, end);
    WithinCountDown(G, G0, start);
    checksum' := (checksum + pos * end) % WORD;
    CountDown(freeSpace, start);
    CountDown(files, end);
    assert files[..] == F[end := F[end] - 1] && freeSpace[..] == G[start := G[start] - 1];
  }

  /** One round of the loop of `compressed_checksum`: place a block of the
    * front file, or fill a free block from the back file, or pass over an
    * empty back file, or move the front cursor on. */
  method Round(files: array<int>, freeSpace: array<int>, start: int, end: int, pos: int, checksum: int,
               ghost placed: seq<int>, ghost goal: seq<int>, ghost F0: seq<int>, ghost G0: seq<int>)
    returns (start': int, end': int, pos': int, checksum': int, ghost placed': seq<int>)
    requires files != freeSpace && start <= end
    requires Within(files[..], F0) && Within(freeSpace[..], G0)
    requires Progress(files[..], freeSpace[..], start, end, pos, checksum, placed, goal)
    modifies files, freeSpace
    ensures Within(files[..], F0) && Within(freeSpace[..], G0)
    ensures Progress(files[..], freeSpace[..], start', end', pos', checksum', placed', goal)
    ensures 0 <= Measure(files[..], freeSpace[..], start', end') < old(Measure(files[..], freeSpace[..], start, end))
  {
    start', end', pos', checksum', placed' := start, end, pos, checksum, placed;
    if files[start] != 0 {
      checksum' := TakeFront(files, freeSpace, start, end, pos, checksum, placed, goal, F0);
      placed', pos' := placed + [start], pos + 1;
    } else if start < freeSpace.Length && freeSpace[start] != 0 {
      if files[end] == 0 {
        SkipRound(files[..], freeSpace[..], start, end, pos, checksum, placed, goal);
        end' := end - 1;
      } else {
        checksum' := FillGap(files, freeSpace, start, end, pos, checksum, placed, goal, F0, G0);
        placed', pos' := placed + [end], pos + 1;
      }
    } else {
      NextRound(files[..], freeSpace[..], start, end, pos, checksum, placed, goal);
      start' := start + 1;
    }
  }

  /** `compressed_checksum` on the corrected cursor arithmetic: the front
    * cursor walks the files and their gaps, the back cursor feeds the gaps
    * from the last file that still has blocks, and the checksum is that of
    * the compacted disk, modulo 2^64.  The sizes are counted down in place
    * and never go below zero. */
  method CompressedChecksum(files: array<int>, freeSpace: array<int>) returns (checksum: int)
    requires files != freeSpace
    requires forall i :: 0 <= i < files.Length ==> files[i] >= 0
    requires forall i :: 0 <= i < freeSpace.Length ==> freeSpace[i] >= 0
    modifies files, freeSpace
    ensures checksum == Weighted(Compact(Disk(old(files[..]), old(freeSpace[..]), 0))) % WORD
    ensures forall i :: 0 <= i < files.Length ==> 0 <= files[i] <= old(files[i])
    ensures forall i :: 0 <= i < freeSpace.Length ==> 0 <= freeSpace[i] <= old(freeSpace[i])
  {
    ghost var F0, G0 := files[..], freeSpace[..];
    ghost var goal := Compact(Disk(F0, G0, 0));
    ghost var placed: seq<int> := [];
    checksum := 0;
    var pos := 0;
    var start := 0;
    var end := files.Length - 1;
    if files.Length > 0 {
      DiskSpan(F0, G0, 0);
      CompactTrailing(Span(F0, G0, 0, end), Gap(G0, end));
    }
    while start <= end
      invariant Within(files[..], F0) && Within(freeSpace[..], G0)
      invariant Progress(files[..], freeSpace[..], start, end, pos, checksum, placed, goal)
      decreases Measure(files[..], freeSpace[..], start, end)
    {
      start, end, pos, checksum, placed := Round(files, freeSpace, start, end, pos, checksum, placed, goal, F0, G0);
    }
    assert Span(files[..], freeSpace[..], start, end) == [];
    assert goal == placed + [];
    assert placed + [] == placed;
  }

  // ---- The cursors as written: `size_t` ----

  /** `size_t` arithmetic wraps modulo 2^64. */
  const SIZE: int := 0x1_0000_0000_0000_0000

  /** Where a round of the loop leaves the two cursors, on the source's
    * unsigned cursors; a read past the end of `files` is `OutOfBounds`. */
  datatype CursorRound = Finished | OutOfBounds | Again(files: seq<int>, free: seq<int>, start: nat, end: nat)

  /** The initial back cursor, `files_size - 1` in `size_t`. */
  function EndCursorAsWritten(size: nat): (e: nat)
    requires size < SIZE
    ensures size > 0 ==> e == size - 1
    ensures size == 0 ==> e == SIZE - 1
  {
    (size - 1) % SIZE
  }

  /** One round of the loop of `compressed_checksum` with `size_t`
    * cursors: only the cursors and the sizes are followed. */
  function RoundAsWritten(files: seq<int>, free: seq<int>, start: nat, end: nat): (r: CursorRound)
    requires start < SIZE && end < SIZE
    ensures r.Again? ==> r.start < SIZE && r.end < SIZE
    ensures r == Finished <==> start > end
  {
    if start > end then Finished
    else if start >= |files| then OutOfBounds
    else if files[start] != 0 then
      Again(files[start := files[start] - 1], free, start, end)
    else if Gap(free, start) != 0 then
      if end >= |files| then OutOfBounds
      else if files[end] == 0 then Again(files, free, start, (end - 1) % SIZE)
      else Again(files[end := files[end] - 1], free[start := free[start] - 1], start, end)
    else if start + 1 < SIZE then Again(files, free, start + 1, end)
    else OutOfBounds
  }

  /** A disk map whose first file is empty, `02`: the back cursor passes
    * over file 0, wraps round to 2^64 - 1 and the next round reads past
    * the end of `files`.  An empty disk map reads `files[0]` at once. */
  lemma UnderflowExample()
    ensures RoundAsWritten([0], [2], 0, EndCursorAsWritten(1)) == Again([0], [2], 0, SIZE - 1)
    ensures RoundAsWritten([0], [2], 0, SIZE - 1) == OutOfBounds
    ensures RoundAsWritten([], [], 0, EndCursorAsWritten(0)) == OutOfBounds
  {
  }

  /** With signed cursors the same disk map gives checksum 0: the loop ends
    * when the back cursor reaches -1. */
  lemma CorrectedExample()
    ensures Weighted(Compact(Disk([0], [2], 0))) % WORD == 0
    ensures Weighted(Compact(Disk([], [], 0))) % WORD == 0
  {
    assert Disk([0], [2], 0) == [FREE, FREE] by {
      assert Disk([0], [2], 1) == [];
      assert Rep(FREE, 2) == [FREE, FREE] by {
        assert Rep(FREE, 1) == [FREE] by { assert Rep(FREE, 0) == []; }
      }
    }
    assert Compact([FREE, FREE]) == [] by {
      CompactDropFree([FREE]);
      CompactDropFree([]);
      assert [FREE] + [FREE] == [FREE, FREE];
      assert [] + [FREE] == [FREE];
    }
  }
}
