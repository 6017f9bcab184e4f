// Day 9, part 2: whole files move instead of single blocks.  The disk is a
// doubly linked list of runs, each a file (its id and size) or free space.
// Files are tried once each, from the highest id down; a file moves to the
// leftmost run of free space before it that is large enough, leaving free
// space behind that merges with free neighbours.  The checksum is the sum
// of each file block's position times its file id.
//
// The list is modelled as the sequence of its runs in order from head to
// tail; a node is its position in that sequence and NULL is -1.

module WholeFiles {
  import DiskFragmenter

  const FREE: int := DiskFragmenter.FREE
  /** The size above which a file is never tried; digit sizes stay below it. */
  const TOO_BIG: int := 10

  /** One node of the list: a file or, when `id` is FREE, free space. */
  datatype Block = Block(id: int, size: int)

  /** The result of a move: the new runs and where the source node is now. */
  datatype Moved = Moved(blocks: seq<Block>, source: int)

  // ---- From runs to disk blocks ----

  /** The disk block by block: each run's id repeated `size` times. */
  function Expand(bs: seq<Block>): seq<int> {
    if |bs| == 0 then [] else DiskFragmenter.Rep(bs[0].id, bs[0].size) + Expand(bs[1..])
  }

  lemma {:induction false} ExpandConcat(a: seq<Block>, b: seq<Block>)
    ensures Expand(a + b) == Expand(a) + Expand(b)
    decreases |a|
  {
    if |a| > 0 {
      assert (a + b)[0] == a[0] && (a + b)[1..] == a[1..] + b;
      ExpandConcat(a[1..], b);
      calc {
        Expand(a + b);
        DiskFragmenter.Rep(a[0].id, a[0].size) + Expand(a[1..] + b);
        DiskFragmenter.Rep(a[0].id, a[0].size) + (Expand(a[1..]) + Expand(b));
      }
    } else {
      assert a + b == b;
    }
  }

  lemma ExpandOne(b: Block)
    ensures Expand([b]) == DiskFragmenter.Rep(b.id, b.size)
  {
    assert [b][1..] == [];
  }

  lemma {:induction false} RepAdd(x: int, m: int, n: int)
    requires m >= 0 && n >= 0
    ensures DiskFragmenter.Rep(x, m) + DiskFragmenter.Rep(x, n) == DiskFragmenter.Rep(x, m + n)
    decreases n
  {
    if n > 0 {
      RepAdd(x, m, n - 1);
    }
  }

  /** The checksum of a disk: position times id over the file blocks. */
  function Checksum(c: seq<int>): int {
    if |c| == 0 then 0
    else Checksum(c[..|c| - 1]) + (if c[|c| - 1] == FREE then 0 else (|c| - 1) * c[|c| - 1])
  }

  lemma ChecksumAppend(c: seq<int>, x: int)
    ensures Checksum(c + [x]) == Checksum(c) + (if x == FREE then 0 else |c| * x)
  {
    assert (c + [x])[..|c|] == c;
  }

  /** Free blocks leave the checksum as it is. */
  lemma {:induction false} ChecksumFree(c: seq<int>, n: int)
    ensures Checksum(c + DiskFragmenter.Rep(FREE, n)) == Checksum(c)
    decreases n
  {
    if n > 0 {
      assert DiskFragmenter.Rep(FREE, n) == DiskFragmenter.Rep(FREE, n - 1) + [FREE];
      assert c + DiskFragmenter.Rep(FREE, n) == (c + DiskFragmenter.Rep(FREE, n - 1)) + [FREE];
      ChecksumAppend(c + DiskFragmenter.Rep(FREE, n - 1), FREE);
      ChecksumFree(c, n - 1);
    } else {
      assert c + DiskFragmenter.Rep(FREE, n) == c;
    }
  }

  // ---- The linked list ----

  /** What the list keeps true: the head is a file, no size is negative. */
  predicate WellFormed(bs: seq<Block>) {
    |bs| > 0 && bs[0].id != FREE && forall k :: 0 <= k < |bs| ==> bs[k].size >= 0
  }

  /** The list without node `k`. */
  function Delete(bs: seq<Block>, k: int): seq<Block>
    requires 0 <= k < |bs|
  {
    bs[..k] + bs[k + 1..]
  }

  /** The list built from the disk map: each file, then its free space when
    * that is not empty. */
  function Initial(files: seq<int>, free: seq<int>, n: nat): (bs: seq<Block>)
    requires n <= |files|
  {
    if n == 0 then []
    else
      Initial(files, free, n - 1) + ([Block(n - 1, files[n - 1])] + GapRun(free, n - 1))
  }

  /** The free space after file `i`, as a run when it is not empty. */
  function GapRun(free: seq<int>, i: int): seq<Block> {
    if 0 <= i < |free| && free[i] != 0 then [Block(FREE, free[i])] else []
  }

  lemma GapRunDisk(free: seq<int>, i: int)
    ensures Expand(GapRun(free, i)) == DiskFragmenter.Rep(FREE, DiskFragmenter.Gap(free, i))
  {
    if 0 <= i < |free| && free[i] != 0 {
      ExpandOne(Block(FREE, free[i]));
    }
  }

  lemma FileDisk(b: Block, gap: seq<Block>)
    ensures Expand([b] + gap) == DiskFragmenter.Rep(b.id, b.size) + Expand(gap)
  {
    ExpandConcat([b], gap);
    ExpandOne(b);
  }

  lemma InitialStep(files: seq<int>, free: seq<int>, n: nat)
    requires n < |files|
    ensures Expand(Initial(files, free, n + 1))
         == Expand(Initial(files, free, n))
            + (DiskFragmenter.Rep(n, files[n]) + DiskFragmenter.Rep(FREE, DiskFragmenter.Gap(free, n)))
  {
    ExpandConcat(Initial(files, free, n), [Block(n, files[n])] + GapRun(free, n));
    FileDisk(Block(n, files[n]), GapRun(free, n));
    GapRunDisk(free, n);
  }

  /** The list spells out the same disk as the block-by-block one. */
  lemma {:induction false} InitialDisk(files: seq<int>, free: seq<int>)
    ensures Expand(Initial(files, free, |files|)) == DiskFragmenter.Disk(files, free, 0)
  {
    var n := 0;
    while n < |files|
      invariant 0 <= n <= |files|
      invariant Expand(Initial(files, free, n)) + DiskFragmenter.Disk(files, free, n)
             == DiskFragmenter.Disk(files, free, 0)
    {
      InitialStep(files, free, n);
      Assoc(Expand(Initial(files, free, n)),
        DiskFragmenter.Rep(n, files[n]) + DiskFragmenter.Rep(FREE, DiskFragmenter.Gap(free, n)),
        DiskFragmenter.Disk(files, free, n + 1));
      n := n + 1;
    }
    assert DiskFragmenter.Disk(files, free, n) == [];
  }

  lemma {:induction false} InitialForm(files: seq<int>, free: seq<int>, n: nat)
    requires n <= |files|
    requires forall i :: 0 <= i < |files| ==> files[i] >= 0
    requires forall i :: 0 <= i < |free| ==> free[i] >= 0
    ensures n > 0 ==> WellFormed(Initial(files, free, n)) && Initial(files, free, n)[0] == Block(0, files[0])
  {
    if n > 0 {
      InitialForm(files, free, n - 1);
    }
  }

  /** Free space of at least `size` blocks. */
  predicate Fits(b: Block, size: int) {
    b.id == FREE && b.size >= size
  }

  function FitFrom(bs: seq<Block>, file: int, k: int): (f: int)
    requires 0 <= k <= file < |bs|
    ensures f == -1 || k <= f < file
    ensures f >= 0 ==> Fits(bs[f], bs[file].size)
    ensures forall j :: k <= j < file && (f == -1 || j < f) ==> !Fits(bs[j], bs[file].size)
    decreases file - k
  {
    if k == file then -1
    else if Fits(bs[k], bs[file].size) then k
    else FitFrom(bs, file, k + 1)
  }

  /** The first node before `file` that is free space large enough for it,
    * or -1 when there is none. */
  function FirstFit(bs: seq<Block>, file: int): (f: int)
    requires 0 <= file < |bs|
    ensures -1 <= f < file
    ensures f >= 0 ==> Fits(bs[f], bs[file].size)
    ensures forall j :: 0 <= j < file && (f == -1 || j < f) ==> !Fits(bs[j], bs[file].size)
  {
    FitFrom(bs, file, 0)
  }

  /** What moving file `s` to just after node `p` needs: the node after `p`
    * is free space before the file, large enough to hold it. */
  predicate MoveArgs(bs: seq<Block>, p: int, s: int) {
    WellFormed(bs) && 0 <= p && p + 1 < s < |bs|
    && Fits(bs[p + 1], bs[s].size) && bs[s].id != FREE
  }

  /** Free run `f` gives up `size` blocks and goes once it is empty. */
  function Shrink(bs: seq<Block>, f: int, size: int): seq<Block>
    requires 0 <= f < |bs|
  {
    var b1 := bs[f := Block(FREE, bs[f].size - size)];
    if b1[f].size == 0 then Delete(b1, f) else b1
  }

  /** The first half of moving file `s` to just after node `p`: the free
    * run after `p` shrinks, a copy of the file follows `p`, and the source
    * becomes free space. */
  function Place(bs: seq<Block>, p: int, s: int): (m: Moved)
    requires MoveArgs(bs, p, s)
    ensures 0 <= m.source < |m.blocks|
  {
    var f := p + 1;
    var file := bs[s];
    var b2 := Shrink(bs, f, file.size);
    var s2 := if bs[f].size == file.size then s - 1 else s;
    var b3 := b2[..f] + [file] + b2[f..];
    Moved(b3[s2 + 1 := Block(FREE, file.size)], s2 + 1)
  }

  /** The free run at `k` absorbs a free run just before it. */
  function AbsorbPrev(bs: seq<Block>, k: int): (m: Moved)
    requires 0 <= k < |bs|
    ensures 0 <= m.source < |m.blocks|
  {
    if k > 0 && bs[k - 1].id == FREE
    then Moved(Delete(bs[k := Block(FREE, bs[k].size + bs[k - 1].size)], k - 1), k - 1)
    else Moved(bs, k)
  }

  /** The free run at `k` absorbs a free run just after it. */
  function AbsorbNext(bs: seq<Block>, k: int): (r: seq<Block>)
    requires 0 <= k < |bs|
    ensures k < |r|
  {
    if k + 1 < |bs| && bs[k + 1].id == FREE
    then Delete(bs[k := Block(FREE, bs[k].size + bs[k + 1].size)], k + 1)
    else bs
  }

  /** The second half: the new free run at `k` absorbs its free neighbours. */
  function Merge(bs: seq<Block>, k: int): (m: Moved)
    requires 0 <= k < |bs|
    ensures 0 <= m.source < |m.blocks|
  {
    var m := AbsorbPrev(bs, k);
    Moved(AbsorbNext(m.blocks, m.source), m.source)
  }

  /** Moving file `s` to just after node `p`.  The list stays well formed
    * and the source, now free space, is not the head. */
  function Move(bs: seq<Block>, p: int, s: int): (m: Moved)
    requires MoveArgs(bs, p, s)
    ensures WellFormed(m.blocks) && 0 < m.source < |m.blocks| && m.blocks[0] == bs[0]
  {
    var placed := Place(bs, p, s);
    PlaceForm(bs, p, s);
    MergeForm(placed.blocks, placed.source);
    Merge(placed.blocks, placed.source)
  }

  // ---- The shape of a move ----

  /** The free space left after the file moves into a run of `left`
    * blocks: nothing when the file filled the run. */
  function Rest(left: int): seq<Block> {
    if left == 0 then [] else [Block(FREE, left)]
  }

  lemma ShrinkShape(bs: seq<Block>, f: int, size: int)
    requires 0 <= f < |bs|
    ensures Shrink(bs, f, size) == bs[..f] + Rest(bs[f].size - size) + bs[f + 1..]
  {
    var b1 := bs[f := Block(FREE, bs[f].size - size)];
    assert b1[..f] == bs[..f] && b1[f + 1..] == bs[f + 1..];
    assert b1 == bs[..f] + [b1[f]] + bs[f + 1..];
  }

  lemma UpdateMiddle(a: seq<Block>, x: Block, b: seq<Block>, y: Block)
    ensures (a + [x] + b)[|a| := y] == a + [y] + b
  {
  }

  lemma InsertShape(a: seq<Block>, r: seq<Block>, t: seq<Block>, file: Block)
    ensures var b2 := a + r + t;
      b2[..|a|] == a && b2[|a|..] == r + t
  {
    assert (a + r + t)[..|a|] == a;
    assert (a + r + t)[|a|..] == r + t;
  }

  lemma TailShape(bs: seq<Block>, f: int, s: int)
    requires 0 <= f < s < |bs|
    ensures bs[f + 1..] == bs[f + 1..s] + ([bs[s]] + bs[s + 1..])
  {
  }

  lemma Regroup(a: seq<Block>, x: Block, r: seq<Block>, m: seq<Block>, z: seq<Block>)
    ensures a + [x] + (r + (m + ([x] + z))) == (a + [x] + (r + m)) + [x] + z
  {
  }

  lemma PlaceShape(bs: seq<Block>, p: int, s: int)
    requires MoveArgs(bs, p, s)
    ensures var left := bs[p + 1].size - bs[s].size;
      && Place(bs, p, s).blocks
         == bs[..p + 1] + [bs[s]] + (Rest(left) + bs[p + 2..s]) + [Block(FREE, bs[s].size)] + bs[s + 1..]
      && Place(bs, p, s).source == s + |Rest(left)|
  {
    var f := p + 1;
    var file := bs[s];
    var a, r, m, z := bs[..f], Rest(bs[f].size - file.size), bs[f + 1..s], bs[s + 1..];
    ShrinkShape(bs, f, file.size);
    InsertShape(a, r, bs[f + 1..], file);
    TailShape(bs, f, s);
    Regroup(a, file, r, m, z);
    UpdateMiddle(a + [file] + (r + m), file, z, Block(FREE, file.size));
  }

  lemma PlaceForm(bs: seq<Block>, p: int, s: int)
    requires MoveArgs(bs, p, s)
    ensures var m := Place(bs, p, s);
      && WellFormed(m.blocks) && m.blocks[0] == bs[0]
      && 0 < m.source && m.blocks[m.source] == Block(FREE, bs[s].size)
  {
    PlaceShape(bs, p, s);
  }

  lemma MergeForm(bs: seq<Block>, k: int)
    requires WellFormed(bs) && 0 < k < |bs|
    ensures WellFormed(Merge(bs, k).blocks) && Merge(bs, k).blocks[0] == bs[0] && 0 < Merge(bs, k).source
  {
    AbsorbPrevForm(bs, k);
    var m := AbsorbPrev(bs, k);
    AbsorbNextForm(m.blocks, m.source);
  }

  lemma DeleteForm(bs: seq<Block>, k: int)
    requires WellFormed(bs) && 0 < k < |bs|
    ensures WellFormed(Delete(bs, k)) && Delete(bs, k)[0] == bs[0]
  {
    var d := Delete(bs, k);
    assert forall j :: 0 <= j < |d| ==> d[j] == if j < k then bs[j] else bs[j + 1];
  }

  lemma AbsorbPrevForm(bs: seq<Block>, k: int)
    requires WellFormed(bs) && 0 < k < |bs|
    ensures var m := AbsorbPrev(bs, k); WellFormed(m.blocks) && m.blocks[0] == bs[0] && 0 < m.source
  {
    if bs[k - 1].id == FREE {
      DeleteForm(bs[k := Block(FREE, bs[k].size + bs[k - 1].size)], k - 1);
    }
  }

  lemma AbsorbNextForm(bs: seq<Block>, k: int)
    requires WellFormed(bs) && 0 < k < |bs|
    ensures WellFormed(AbsorbNext(bs, k)) && AbsorbNext(bs, k)[0] == bs[0]
  {
    if k + 1 < |bs| && bs[k + 1].id == FREE {
      DeleteForm(bs[k := Block(FREE, bs[k].size + bs[k + 1].size)], k + 1);
    }
  }

  // ---- The disk after a move ----

  lemma ExpandSplit(a: seq<Block>, x: Block, m: seq<Block>, y: Block, z: seq<Block>)
    ensures Expand(a + [x] + m + [y] + z)
         == Expand(a) + DiskFragmenter.Rep(x.id, x.size) + Expand(m) + DiskFragmenter.Rep(y.id, y.size) + Expand(z)
  {
    ExpandConcat(a + [x] + m + [y], z);
    ExpandConcat(a + [x] + m, [y]);
    ExpandConcat(a + [x], m);
    ExpandConcat(a, [x]);
    ExpandOne(x);
    ExpandOne(y);
  }

  /** The disk around run `j`. */
  lemma ExpandAt(c: seq<Block>, j: int)
    requires 0 <= j < |c|
    ensures Expand(c) == Expand(c[..j]) + DiskFragmenter.Rep(c[j].id, c[j].size) + Expand(c[j + 1..])
  {
    var a, x, b := c[..j], c[j], c[j + 1..];
    assert c == a + ([x] + b);
    var ea, ex, eb := Expand(a), Expand([x]), Expand(b);
    ExpandConcat(a, [x] + b);
    ExpandConcat([x], b);
    ExpandOne(x);
    assert Expand(c) == ea + (ex + eb);
  }

  lemma Assoc(a: seq<int>, b: seq<int>, c: seq<int>)
    ensures a + (b + c) == (a + b) + c
  {
  }

  lemma PairSlices(c: seq<Block>, j: int, x: Block)
    requires 0 <= j && j + 1 < |c|
    ensures var d := c[..j] + [x] + c[j + 2..];
      && d[..j] == c[..j] && d[j] == x && d[j + 1..] == c[j + 2..]
      && c[j + 1..][..0] == [] && c[j + 1..][1..] == c[j + 2..]
  {
  }

  /** The disk around two neighbouring runs `j` and `j + 1`. */
  lemma ExpandPair(c: seq<Block>, j: int)
    requires 0 <= j && j + 1 < |c|
    ensures Expand(c)
         == Expand(c[..j])
            + (DiskFragmenter.Rep(c[j].id, c[j].size) + DiskFragmenter.Rep(c[j + 1].id, c[j + 1].size))
            + Expand(c[j + 2..])
  {
    PairSlices(c, j, c[j]);
    var r := c[j + 1..];
    ExpandAt(c, j);
    ExpandAt(r, 0);
    var ea, ez := Expand(c[..j]), Expand(c[j + 2..]);
    var rx, ry := DiskFragmenter.Rep(c[j].id, c[j].size), DiskFragmenter.Rep(c[j + 1].id, c[j + 1].size);
    assert Expand(r) == [] + ry + ez;
    assert [] + ry + ez == ry + ez;
    Assoc(ea + rx, ry, ez);
    Assoc(ea, rx, ry);
  }

  lemma JoinedDisk(c: seq<Block>, j: int, n: int)
    requires 0 <= j && j + 1 < |c|
    ensures Expand(c[..j] + [Block(FREE, n)] + c[j + 2..])
         == Expand(c[..j]) + DiskFragmenter.Rep(FREE, n) + Expand(c[j + 2..])
  {
    PairSlices(c, j, Block(FREE, n));
    ExpandAt(c[..j] + [Block(FREE, n)] + c[j + 2..], j);
  }

  lemma PairDisk(c: seq<Block>, j: int, n: int)
    requires 0 <= j && j + 1 < |c| && c[j].id == FREE && c[j + 1].id == FREE
    requires c[j].size >= 0 && c[j + 1].size >= 0 && n == c[j].size + c[j + 1].size
    ensures Expand(c) == Expand(c[..j]) + DiskFragmenter.Rep(FREE, n) + Expand(c[j + 2..])
  {
    ExpandPair(c, j);
    RepAdd(FREE, c[j].size, c[j + 1].size);
  }

  /** Two neighbouring runs of free space spell out the same disk as one
    * run of their joint size. */
  lemma PairMerge(c: seq<Block>, j: int, n: int)
    requires 0 <= j && j + 1 < |c| && c[j].id == FREE && c[j + 1].id == FREE
    requires c[j].size >= 0 && c[j + 1].size >= 0 && n == c[j].size + c[j + 1].size
    ensures Expand(c[..j] + [Block(FREE, n)] + c[j + 2..]) == Expand(c)
  {
    JoinedDisk(c, j, n);
    PairDisk(c, j, n);
  }

  lemma AbsorbShape(c: seq<Block>, k: int, x: Block)
    requires 0 < k < |c|
    ensures Delete(c[k := x], k - 1) == c[..k - 1] + [x] + c[k + 1..]
  {
  }

  lemma AbsorbNextShape(c: seq<Block>, k: int, x: Block)
    requires 0 <= k && k + 1 < |c|
    ensures Delete(c[k := x], k + 1) == c[..k] + [x] + c[k + 2..]
  {
  }

  lemma AbsorbPrevDisk(c: seq<Block>, k: int)
    requires 0 <= k < |c| && c[k].id == FREE
    requires forall i :: 0 <= i < |c| ==> c[i].size >= 0
    ensures var m := AbsorbPrev(c, k);
      && Expand(m.blocks) == Expand(c) && m.blocks[m.source].id == FREE
      && forall i :: 0 <= i < |m.blocks| ==> m.blocks[i].size >= 0
  {
    if k > 0 && c[k - 1].id == FREE {
      var x := Block(FREE, c[k].size + c[k - 1].size);
      AbsorbShape(c, k, x);
      PairMerge(c, k - 1, x.size);
    }
  }

  lemma AbsorbNextDisk(c: seq<Block>, k: int)
    requires 0 <= k < |c| && c[k].id == FREE
    requires forall i :: 0 <= i < |c| ==> c[i].size >= 0
    ensures Expand(AbsorbNext(c, k)) == Expand(c)
  {
    if k + 1 < |c| && c[k + 1].id == FREE {
      var x := Block(FREE, c[k].size + c[k + 1].size);
      AbsorbNextShape(c, k, x);
      PairMerge(c, k, x.size);
    }
  }

  /** Merging free neighbours into the free run at `k` leaves the disk as
    * it was. */
  lemma MergeDisk(c: seq<Block>, k: int)
    requires 0 <= k < |c| && c[k].id == FREE
    requires forall i :: 0 <= i < |c| ==> c[i].size >= 0
    ensures Expand(Merge(c, k).blocks) == Expand(c)
  {
    AbsorbPrevDisk(c, k);
    var m := AbsorbPrev(c, k);
    AbsorbNextDisk(m.blocks, m.source);
  }

  /** The disk before a move, cut at the free run after `p` and at the file. */
  lemma DiskBefore(bs: seq<Block>, p: int, s: int)
    requires MoveArgs(bs, p, s)
    ensures Expand(bs)
         == Expand(bs[..p + 1]) + DiskFragmenter.Rep(FREE, bs[p + 1].size) + Expand(bs[p + 2..s])
            + DiskFragmenter.Rep(bs[s].id, bs[s].size) + Expand(bs[s + 1..])
  {
    assert bs == bs[..p + 1] + [bs[p + 1]] + bs[p + 2..s] + [bs[s]] + bs[s + 1..];
    ExpandSplit(bs[..p + 1], bs[p + 1], bs[p + 2..s], bs[s], bs[s + 1..]);
  }

  lemma RestDisk(left: int)
    requires left >= 0
    ensures Expand(Rest(left)) == DiskFragmenter.Rep(FREE, left)
  {
    if left != 0 {
      ExpandOne(Block(FREE, left));
    }
  }

  lemma MiddleDisk(left: int, m: seq<Block>)
    requires left >= 0
    ensures Expand(Rest(left) + m) == DiskFragmenter.Rep(FREE, left) + Expand(m)
  {
    ExpandConcat(Rest(left), m);
    RestDisk(left);
  }

  /** The disk once the copy is placed and the source freed. */
  lemma DiskPlaced(bs: seq<Block>, p: int, s: int)
    requires MoveArgs(bs, p, s)
    ensures Expand(Place(bs, p, s).blocks)
         == Expand(bs[..p + 1]) + DiskFragmenter.Rep(bs[s].id, bs[s].size)
            + (DiskFragmenter.Rep(FREE, bs[p + 1].size - bs[s].size) + Expand(bs[p + 2..s]))
            + DiskFragmenter.Rep(FREE, bs[s].size) + Expand(bs[s + 1..])
  {
    var file := bs[s];
    var left := bs[p + 1].size - file.size;
    PlaceShape(bs, p, s);
    ExpandSplit(bs[..p + 1], file, Rest(left) + bs[p + 2..s], Block(FREE, file.size), bs[s + 1..]);
    MiddleDisk(left, bs[p + 2..s]);
  }

  /** The disk after a move: the file's blocks fill the start of the free
    * run it moves into, its old blocks become free, and every other block
    * stays where it was. */
  lemma MoveDisk(bs: seq<Block>, p: int, s: int)
    requires MoveArgs(bs, p, s)
    ensures var file := bs[s];
      && Expand(bs)
         == Expand(bs[..p + 1]) + DiskFragmenter.Rep(FREE, bs[p + 1].size) + Expand(bs[p + 2..s])
            + DiskFragmenter.Rep(file.id, file.size) + Expand(bs[s + 1..])
      && Expand(Move(bs, p, s).blocks)
         == Expand(bs[..p + 1]) + DiskFragmenter.Rep(file.id, file.size)
            + DiskFragmenter.Rep(FREE, bs[p + 1].size - file.size) + Expand(bs[p + 2..s])
            + DiskFragmenter.Rep(FREE, file.size) + Expand(bs[s + 1..])
  {
    DiskBefore(bs, p, s);
    DiskPlaced(bs, p, s);
    var placed := Place(bs, p, s);
    PlaceForm(bs, p, s);
    MergeDisk(placed.blocks, placed.source);
    var ea, ef := Expand(bs[..p + 1]), DiskFragmenter.Rep(bs[s].id, bs[s].size);
    Assoc(ea + ef, DiskFragmenter.Rep(FREE, bs[p + 1].size - bs[s].size), Expand(bs[p + 2..s]));
  }

  /** Swapping a file's blocks with part of a free run, in a row of pieces,
    * keeps the multiset of blocks. */
  lemma Shuffle(before: seq<int>, after: seq<int>,
                a: seq<int>, f: seq<int>, f1: seq<int>, f2: seq<int>, m: seq<int>, r: seq<int>, z: seq<int>)
    requires f == f1 + f2
    requires before == a + f + m + r + z
    requires after == a + r + f2 + m + f1 + z
    ensures multiset(after) == multiset(before)
  {
  }

  lemma MoveKeepsBlocks(bs: seq<Block>, p: int, s: int)
    requires MoveArgs(bs, p, s)
    ensures multiset(Expand(Move(bs, p, s).blocks)) == multiset(Expand(bs))
  {
    var n, left := bs[s].size, bs[p + 1].size - bs[s].size;
    MoveDisk(bs, p, s);
    RepAdd(FREE, n, left);
    assert n + left == bs[p + 1].size;
    Shuffle(Expand(bs), Expand(Move(bs, p, s).blocks),
      Expand(bs[..p + 1]), DiskFragmenter.Rep(FREE, bs[p + 1].size), DiskFragmenter.Rep(FREE, n), DiskFragmenter.Rep(FREE, left),
      Expand(bs[p + 2..s]), DiskFragmenter.Rep(bs[s].id, n), Expand(bs[s + 1..]));
  }

  // ---- Defragmenting ----

  /** The solver's loop state: the list, the node it is on and the file id
    * it is looking for. */
  datatype Search = Search(blocks: seq<Block>, node: int, expected: int)

  /** One round of the loop at node `node`: a file with the expected id is
    * moved to the first free run before it that will hold it, and the id
    * looked for goes down; either way the search goes on at the node before. */
  function Try(bs: seq<Block>, node: int, expected: int): (r: Search)
    requires WellFormed(bs) && 0 <= node < |bs| && expected > 0
    ensures WellFormed(r.blocks) && r.blocks[0] == bs[0] && -1 <= r.node < |r.blocks|
    ensures r.expected == expected - 1 || (r.expected == expected && r.node < node)
  {
    if bs[node].id == expected && bs[node].size <= TOO_BIG then
      var f := if bs[node].size != 0 then FirstFit(bs, node) else -1;
      if f != -1 then
        var m := Move(bs, f - 1, node);
        Search(m.blocks, m.source - 1, expected - 1)
      else Search(bs, node - 1, expected - 1)
    else Search(bs, node - 1, expected)
  }

  /** The loop from node `node` back to the head, looking for file
    * `expected` next; it stops at the head or once file 0 is reached. */
  function Defrag(bs: seq<Block>, node: int, expected: int): (r: seq<Block>)
    requires WellFormed(bs) && -1 <= node < |bs|
    ensures WellFormed(r) && r[0] == bs[0]
    decreases expected, node + 1
  {
    if expected <= 0 || node == -1 then bs
    else
      var t := Try(bs, node, expected);
      Defrag(t.blocks, t.node, t.expected)
  }

  /** The whole loop, which starts at the tail node. */
  function DefragAll(bs: seq<Block>, expected: int): (r: seq<Block>)
    requires WellFormed(bs)
    ensures WellFormed(r) && r[0] == bs[0]
  {
    Defrag(bs, |bs| - 1, expected)
  }

  /** A round keeps every block of the disk. */
  lemma TryKeepsBlocks(bs: seq<Block>, node: int, expected: int)
    requires WellFormed(bs) && 0 <= node < |bs| && expected > 0
    ensures multiset(Expand(Try(bs, node, expected).blocks)) == multiset(Expand(bs))
  {
    if bs[node].id == expected && bs[node].size <= TOO_BIG {
      var f := if bs[node].size != 0 then FirstFit(bs, node) else -1;
      if f != -1 {
        MoveKeepsBlocks(bs, f - 1, node);
      }
    }
  }

  /** Defragmenting keeps every block of the disk: files only move into
    * free space, and free space fills the places they leave. */
  lemma {:induction false} DefragKeepsBlocks(bs: seq<Block>, node: int, expected: int)
    requires WellFormed(bs) && -1 <= node < |bs|
    ensures multiset(Expand(Defrag(bs, node, expected))) == multiset(Expand(bs))
    decreases expected, node + 1
  {
    if expected > 0 && node != -1 {
      var t := Try(bs, node, expected);
      TryKeepsBlocks(bs, node, expected);
      DefragKeepsBlocks(t.blocks, t.node, t.expected);
    }
  }

  lemma DefragAllKeepsBlocks(bs: seq<Block>, expected: int)
    requires WellFormed(bs)
    ensures multiset(Expand(DefragAll(bs, expected))) == multiset(Expand(bs))
  {
    DefragKeepsBlocks(bs, |bs| - 1, expected);
  }

  // ---- The list as the solver changes it ----

  class LinkedList {
    /** The runs from head to tail. */
    var blocks: seq<Block>

    constructor ()
      ensures blocks == []
    {
      blocks := [];
    }

    /** A new node at the tail. */
    method AppendList(id: int, size: int)
      modifies this
      ensures blocks == old(blocks) + [Block(id, size)]
    {
      blocks := blocks + [Block(id, size)];
    }

    /** Unlinking node `node`; NULL is ignored. */
    method DeleteNode(node: int)
      requires -1 <= node < |blocks|
      modifies this
      ensures node == -1 ==> blocks == old(blocks)
      ensures node != -1 ==> blocks == Delete(old(blocks), node)
    {
      if node != -1 {
        blocks := blocks[..node] + blocks[node + 1..];
      }
    }

    /** The first free run before `fileNode` large enough for it, or -1. */
    method FindFirstFreeSpace(fileNode: int) returns (f: int)
      requires 0 <= fileNode < |blocks|
      ensures f == FirstFit(blocks, fileNode)
    {
      var node := 0;
      f := -1;
      while node != fileNode && f == -1
        invariant 0 <= node <= fileNode
        invariant f == -1 || (f == node - 1 && Fits(blocks[f], blocks[fileNode].size))
        invariant forall j :: 0 <= j < node && j != f ==> !Fits(blocks[j], blocks[fileNode].size)
        decreases fileNode - node, f + 1
      {
        if Fits(blocks[node], blocks[fileNode].size) {
          f := node;
        }
        node := node + 1;
      }
    }

    /** Moving file `source` to just after `newParent`, which is followed by
      * a large enough free run; the result is where the source node, now
      * free space, ends up. */
    method MoveNode(source: int, newParent: int) returns (moved: int)
      requires MoveArgs(blocks, newParent, source)
      modifies this
      ensures Moved(blocks, moved) == Move(old(blocks), newParent, source)
    {
      moved := PlaceNode(source, newParent);
      moved := AbsorbPrevNode(moved);
      AbsorbNextNode(moved);
    }

    /** The free run after `newParent` shrinks, deleted once empty; a copy
      * of the source follows `newParent`; the source becomes free space. */
    method PlaceNode(source: int, newParent: int) returns (moved: int)
      requires MoveArgs(blocks, newParent, source)
      modifies this
      ensures Moved(blocks, moved) == Place(old(blocks), newParent, source)
    {
      var f := newParent + 1;
      var node := blocks[source];
      moved := if blocks[f].size == node.size then source - 1 else source;
      blocks := blocks[f := Block(FREE, blocks[f].size - node.size)];
      if blocks[f].size == 0 {
        DeleteNode(f);
      }
      blocks := blocks[..f] + [node] + blocks[f..];
      moved := moved + 1;
      blocks := blocks[moved := Block(FREE, node.size)];
    }

    /** Free space at `k` absorbs a free node before it. */
    method AbsorbPrevNode(k: int) returns (moved: int)
      requires 0 <= k < |blocks|
      modifies this
      ensures Moved(blocks, moved) == AbsorbPrev(old(blocks), k)
    {
      moved := k;
      if k > 0 && blocks[k - 1].id == FREE {
        blocks := blocks[k := Block(FREE, blocks[k].size + blocks[k - 1].size)];
        DeleteNode(k - 1);
        moved := k - 1;
      }
    }

    /** Free space at `k` absorbs a free node after it. */
    method AbsorbNextNode(k: int)
      requires 0 <= k < |blocks|
      modifies this
      ensures blocks == AbsorbNext(old(blocks), k)
    {
      if k + 1 < |blocks| && blocks[k + 1].id == FREE {
        blocks := blocks[k := Block(FREE, blocks[k].size + blocks[k + 1].size)];
        DeleteNode(k + 1);
      }
    }
  }

  // ---- The solver ----

  /** The disk map's list defragmented: every file from the last id down is
    * tried once, starting at the tail. */
  function Compacted(files: seq<int>, free: seq<int>): (r: seq<Block>)
    requires |files| > 0
    requires forall i :: 0 <= i < |files| ==> files[i] >= 0
    requires forall i :: 0 <= i < |free| ==> free[i] >= 0
    ensures WellFormed(r)
  {
    InitialForm(files, free, |files|);
    DefragAll(Initial(files, free, |files|), |files| - 1)
  }


  lemma CompactedUnfold(files: seq<int>, free: seq<int>, bs: seq<Block>)
    requires |files| > 0
    requires forall i :: 0 <= i < |files| ==> files[i] >= 0
    requires forall i :: 0 <= i < |free| ==> free[i] >= 0
    requires bs == Initial(files, free, |files|)
    ensures WellFormed(bs)
    ensures Compacted(files, free) == DefragAll(bs, |files| - 1)
  {
    InitialForm(files, free, |files|);
  }

  /** Compaction keeps the blocks of the disk the map describes, and file 0
    * stays at the front. */
  lemma CompactedBlocks(files: seq<int>, free: seq<int>)
    requires |files| > 0
    requires forall i :: 0 <= i < |files| ==> files[i] >= 0
    requires forall i :: 0 <= i < |free| ==> free[i] >= 0
    ensures multiset(Expand(Compacted(files, free))) == multiset(DiskFragmenter.Disk(files, free, 0))
    ensures Compacted(files, free)[0] == Block(0, files[0])
  {
    CompactedKeepsInitial(files, free);
    InitialDisk(files, free);
    CompactedHead(files, free);
  }

  lemma CompactedKeepsInitial(files: seq<int>, free: seq<int>)
    requires |files| > 0
    requires forall i :: 0 <= i < |files| ==> files[i] >= 0
    requires forall i :: 0 <= i < |free| ==> free[i] >= 0
    ensures multiset(Expand(Compacted(files, free))) == multiset(Expand(Initial(files, free, |files|)))
  {
    var bs := Initial(files, free, |files|);
    CompactedUnfold(files, free, bs);
    DefragAllKeepsBlocks(bs, |files| - 1);
  }

  lemma CompactedHead(files: seq<int>, free: seq<int>)
    requires |files| > 0
    requires forall i :: 0 <= i < |files| ==> files[i] >= 0
    requires forall i :: 0 <= i < |free| ==> free[i] >= 0
    ensures Compacted(files, free)[0] == Block(0, files[0])
  {
    var bs := Initial(files, free, |files|);
    CompactedUnfold(files, free, bs);
    InitialForm(files, free, |files|);
  }

  /** The list the disk map describes, built by appending each file and
    * each non-empty free space. */
  method BuildList(files: array<int>, freeSpace: array<int>) returns (list: LinkedList)
    ensures fresh(list)
    ensures list.blocks == Initial(files[..], freeSpace[..], files.Length)
  {
    list := new LinkedList();
    var i := 0;
    while i < files.Length
      invariant 0 <= i <= files.Length
      invariant list.blocks == Initial(files[..], freeSpace[..], i)
    {
      list.AppendList(i, files[i]);
      if i < freeSpace.Length && freeSpace[i] != 0 {
        list.AppendList(FREE, freeSpace[i]);
      }
      i := i + 1;
    }
  }

  /** The backward loop over the list, looking first for file `expected`. */
  lemma DefragStep(bs: seq<Block>, node: int, expected: int)
    requires WellFormed(bs) && 0 <= node < |bs| && expected > 0
    ensures Defrag(bs, node, expected)
         == Defrag(Try(bs, node, expected).blocks, Try(bs, node, expected).node, Try(bs, node, expected).expected)
  {
  }

  /** One round of the main loop: look at node `node` and, if it holds file
    * `expectedId`, try to move it. */
  method TryNode(list: LinkedList, node: int, expectedId: int) returns (next: int, nextId: int)
    requires WellFormed(list.blocks) && 0 <= node < |list.blocks| && expectedId > 0
    modifies list
    ensures Search(list.blocks, next, nextId) == Try(old(list.blocks), node, expectedId)
  {
    next, nextId := node, expectedId;
    var file := list.blocks[node];
    if file.id == expectedId && file.size <= TOO_BIG {
      if file.size != 0 {
        var f := list.FindFirstFreeSpace(node);
        if f != -1 {
          next := list.MoveNode(node, f - 1);
        }
      }
      nextId := expectedId - 1;
    }
    next := next - 1;
  }

  /** A round of the loop, stated against what remains of it. */
  method DefragNode(list: LinkedList, node: int, expectedId: int) returns (next: int, nextId: int)
    requires WellFormed(list.blocks) && 0 <= node < |list.blocks| && expectedId > 0
    modifies list
    ensures WellFormed(list.blocks) && -1 <= next < |list.blocks|
    ensures nextId == expectedId - 1 || (nextId == expectedId && next < node)
    ensures Defrag(list.blocks, next, nextId) == Defrag(old(list.blocks), node, expectedId)
  {
    ghost var t := Try(list.blocks, node, expectedId);
    DefragStep(list.blocks, node, expectedId);
    next, nextId := TryNode(list, node, expectedId);
    assert Search(list.blocks, next, nextId) == t;
  }

  method Defragment(list: LinkedList, expected: int)
    requires WellFormed(list.blocks)
    modifies list
    ensures list.blocks == DefragAll(old(list.blocks), expected)
  {
    var node := |list.blocks| - 1;
    var expectedId := expected;
    ghost var goal := DefragAll(list.blocks, expected);
    while expectedId > 0 && node != -1
      invariant WellFormed(list.blocks) && -1 <= node < |list.blocks|
      invariant Defrag(list.blocks, node, expectedId) == goal
      decreases expectedId, node + 1
    {
      node, expectedId := DefragNode(list, node, expectedId);
    }
  }

  lemma ExpandPrefix(bs: seq<Block>, k: int)
    requires 0 <= k < |bs|
    ensures Expand(bs[..k + 1]) == Expand(bs[..k]) + DiskFragmenter.Rep(bs[k].id, bs[k].size)
  {
    assert bs[..k + 1] == bs[..k] + [bs[k]];
    ExpandConcat(bs[..k], [bs[k]]);
    ExpandOne(bs[k]);
  }

  /** Placing one more block of file `id` at position `pos`. */
  lemma FileStep(e: seq<int>, id: int, i: nat, pos: int, checksum: int)
    requires id != FREE && pos == |e| + i
    requires checksum == Checksum(e + DiskFragmenter.Rep(id, i)) % DiskFragmenter.WORD
    ensures (checksum + id * pos) % DiskFragmenter.WORD
         == Checksum(e + DiskFragmenter.Rep(id, i + 1)) % DiskFragmenter.WORD
  {
    var c := e + DiskFragmenter.Rep(id, i);
    assert e + DiskFragmenter.Rep(id, i + 1) == c + [id];
    ChecksumAppend(c, id);
    assert |c| * id == id * pos;
    DiskFragmenter.AddMod(Checksum(c), id * pos);
  }

  /** The inner loop over the blocks of one file. */
  method AddFile(ghost e: seq<int>, b: Block, checksum: int, pos: int) returns (checksum': int, pos': int)
    requires b.id != FREE && b.size >= 0 && pos == |e|
    requires checksum == Checksum(e) % DiskFragmenter.WORD
    ensures pos' == |e| + b.size
    ensures checksum' == Checksum(e + DiskFragmenter.Rep(b.id, b.size)) % DiskFragmenter.WORD
  {
    checksum', pos' := checksum, pos;
    assert e + DiskFragmenter.Rep(b.id, 0) == e;
    var i := 0;
    while i < b.size
      invariant 0 <= i <= b.size
      invariant pos' == |e| + i
      invariant checksum' == Checksum(e + DiskFragmenter.Rep(b.id, i)) % DiskFragmenter.WORD
    {
      FileStep(e, b.id, i, pos', checksum');
      checksum' := (checksum' + b.id * pos') % DiskFragmenter.WORD;
      pos' := pos' + 1;
      i := i + 1;
    }
  }

  /** The forward loop: the checksum of the disk the list spells out, in
    * `unsigned long long` arithmetic. */
  method ForwardChecksum(list: LinkedList) returns (checksum: int)
    requires WellFormed(list.blocks)
    ensures checksum == Checksum(Expand(list.blocks)) % DiskFragmenter.WORD
  {
    var bs := list.blocks;
    checksum := 0;
    var pos := 0;
    var k := 0;
    while k < |bs|
      invariant 0 <= k <= |bs|
      invariant pos == |Expand(bs[..k])|
      invariant checksum == Checksum(Expand(bs[..k])) % DiskFragmenter.WORD
    {
      var b := bs[k];
      ghost var e := Expand(bs[..k]);
      ExpandPrefix(bs, k);
      if b.id != FREE {
        checksum, pos := AddFile(e, b, checksum, pos);
      } else {
        ChecksumFree(e, b.size);
        pos := pos + b.size;
      }
      k := k + 1;
    }
    assert bs[..k] == bs;
  }

  /** The checksum after moving whole files, for a disk map that starts
    * with a file. */
  method CompressedChecksum(files: array<int>, freeSpace: array<int>) returns (checksum: int)
    requires files.Length > 0
    requires forall i :: 0 <= i < files.Length ==> files[i] >= 0
    requires forall i :: 0 <= i < freeSpace.Length ==> freeSpace[i] >= 0
    ensures checksum == Checksum(Expand(Compacted(files[..], freeSpace[..]))) % DiskFragmenter.WORD
  {
    var list := BuildList(files, freeSpace);
    ghost var compacted := Compacted(files[..], freeSpace[..]);
    CompactedUnfold(files[..], freeSpace[..], list.blocks);
    Defragment(list, files.Length - 1);
    assert list.blocks == compacted;
    checksum := ForwardChecksum(list);
  }

  // ---- Where the search starts ----

  /** As written, the search starts from the id of the tail node. */
  function StartIdAsWritten(bs: seq<Block>): int
    requires |bs| > 0
  {
    bs[|bs| - 1].id
  }

  /** The compaction as written, starting from the tail's id. */
  function CompactedAsWritten(files: seq<int>, free: seq<int>): (r: seq<Block>)
    requires |files| > 0
    requires forall i :: 0 <= i < |files| ==> files[i] >= 0
    requires forall i :: 0 <= i < |free| ==> free[i] >= 0
    ensures WellFormed(r)
  {
    InitialForm(files, free, |files|);
    var bs := Initial(files, free, |files|);
    DefragAll(bs, StartIdAsWritten(bs))
  }

  lemma CompactedAsWrittenUnfold(files: seq<int>, free: seq<int>, bs: seq<Block>)
    requires |files| > 0
    requires forall i :: 0 <= i < |files| ==> files[i] >= 0
    requires forall i :: 0 <= i < |free| ==> free[i] >= 0
    requires bs == Initial(files, free, |files|)
    ensures WellFormed(bs)
    ensures CompactedAsWritten(files, free) == DefragAll(bs, StartIdAsWritten(bs))
  {
    InitialForm(files, free, |files|);
  }

  /** When the map ends with a file, the tail is the last file and the two
    * starts agree. */
  lemma StartIdWhenFileLast(files: seq<int>, free: seq<int>)
    requires |files| > 0
    requires forall i :: 0 <= i < |files| ==> files[i] >= 0
    requires forall i :: 0 <= i < |free| ==> free[i] >= 0
    requires GapRun(free, |files| - 1) == []
    ensures StartIdAsWritten(Initial(files, free, |files|)) == |files| - 1
    ensures CompactedAsWritten(files, free) == Compacted(files, free)
  {
    var bs := Initial(files, free, |files|);
    TailWhenFileLast(files, free);
    CompactedUnfold(files, free, bs);
    CompactedAsWrittenUnfold(files, free, bs);
  }

  lemma TailWhenFileLast(files: seq<int>, free: seq<int>)
    requires |files| > 0
    requires GapRun(free, |files| - 1) == []
    ensures var bs := Initial(files, free, |files|); |bs| > 0 && bs[|bs| - 1] == Block(|files| - 1, files[|files| - 1])
  {
    var n := |files|;
    assert Initial(files, free, n) == Initial(files, free, n - 1) + [Block(n - 1, files[n - 1])];
  }

  /** When the map ends with free space, the tail is free, the search as
    * written starts from id -1 and no file moves. */
  lemma TrailingFreeExample()
    ensures CompactedAsWritten([1, 1], [2, 3]) == [Block(0, 1), Block(FREE, 2), Block(1, 1), Block(FREE, 3)]
    ensures Checksum(Expand(CompactedAsWritten([1, 1], [2, 3]))) == 3
  {
    var d := [Block(0, 1), Block(FREE, 2), Block(1, 1), Block(FREE, 3)];
    FileDisk(d[0], d[1..]);
    FileDisk(d[1], d[2..]);
    FileDisk(d[2], d[3..]);
    ExpandOne(d[3]);
    assert Expand(d) == [0, FREE, FREE, 1, FREE, FREE, FREE];
    ExampleChecksums();
  }

  /** The checksum built up block by block. */
  lemma ChecksumPrefix(c: seq<int>, k: int)
    requires 0 <= k < |c|
    ensures Checksum(c[..k + 1]) == Checksum(c[..k]) + (if c[k] == FREE then 0 else k * c[k])
  {
    assert c[..k + 1] == c[..k] + [c[k]];
    ChecksumAppend(c[..k], c[k]);
  }

  lemma ExampleChecksum(c: seq<int>)
    requires |c| == 7
    ensures Checksum(c) == Checksum(c[..6]) + (if c[6] == FREE then 0 else 6 * c[6])
    ensures Checksum(c[..6]) == Checksum(c[..5]) + (if c[5] == FREE then 0 else 5 * c[5])
    ensures Checksum(c[..5]) == Checksum(c[..4]) + (if c[4] == FREE then 0 else 4 * c[4])
    ensures Checksum(c[..4]) == Checksum(c[..3]) + (if c[3] == FREE then 0 else 3 * c[3])
    ensures Checksum(c[..3]) == Checksum(c[..2]) + (if c[2] == FREE then 0 else 2 * c[2])
    ensures Checksum(c[..2]) == Checksum(c[..1]) + (if c[1] == FREE then 0 else c[1])
    ensures Checksum(c[..1]) == 0
  {
    ChecksumPrefix(c, 0);
    ChecksumPrefix(c, 1);
    ChecksumPrefix(c, 2);
    ChecksumPrefix(c, 3);
    ChecksumPrefix(c, 4);
    ChecksumPrefix(c, 5);
    ChecksumPrefix(c, 6);
    assert c[..7] == c && c[..0] == [];
  }

  lemma ExampleChecksums()
    ensures Checksum([0, FREE, FREE, 1, FREE, FREE, FREE]) == 3
    ensures Checksum([0, 1, FREE, FREE, FREE, FREE, FREE]) == 1
  {
    ExampleChecksum([0, FREE, FREE, 1, FREE, FREE, FREE]);
    ExampleChecksum([0, 1, FREE, FREE, FREE, FREE, FREE]);
  }

  lemma ExampleInitial()
    ensures Initial([1, 1], [2, 3], 2) == [Block(0, 1), Block(FREE, 2), Block(1, 1), Block(FREE, 3)]
  {
    assert Initial([1, 1], [2, 3], 1) == [Block(0, 1), Block(FREE, 2)];
  }

  /** File 1 moves into the gap after file 0, and the three free runs left
    * behind merge into one. */
  lemma ExampleMove()
    ensures Move([Block(0, 1), Block(FREE, 2), Block(1, 1), Block(FREE, 3)], 0, 2)
         == Moved([Block(0, 1), Block(1, 1), Block(FREE, 5)], 2)
  {
    var bs := [Block(0, 1), Block(FREE, 2), Block(1, 1), Block(FREE, 3)];
    var placed := [Block(0, 1), Block(1, 1), Block(FREE, 1), Block(FREE, 1), Block(FREE, 3)];
    assert Place(bs, 0, 2) == Moved(placed, 3);
    assert AbsorbPrev(placed, 3) == Moved([Block(0, 1), Block(1, 1), Block(FREE, 2), Block(FREE, 3)], 2);
  }

  lemma ExampleDefrag()
    ensures DefragAll([Block(0, 1), Block(FREE, 2), Block(1, 1), Block(FREE, 3)], 1)
         == [Block(0, 1), Block(1, 1), Block(FREE, 5)]
  {
    var bs := [Block(0, 1), Block(FREE, 2), Block(1, 1), Block(FREE, 3)];
    var d := [Block(0, 1), Block(1, 1), Block(FREE, 5)];
    assert FirstFit(bs, 2) == 1;
    ExampleMove();
    assert Try(bs, 3, 1) == Search(bs, 2, 1);
    assert Try(bs, 2, 1) == Search(d, 1, 0);
  }

  lemma CorrectedDisk()
    ensures Expand([Block(0, 1), Block(1, 1), Block(FREE, 5)]) == [0, 1, FREE, FREE, FREE, FREE, FREE]
  {
    var d := [Block(0, 1), Block(1, 1), Block(FREE, 5)];
    FileDisk(d[0], d[1..]);
    FileDisk(d[1], d[2..]);
    ExpandOne(d[2]);
  }

  /** Starting from the last file id, file 1 moves into the first gap. */
  lemma TrailingFreeCorrected()
    ensures Compacted([1, 1], [2, 3]) == [Block(0, 1), Block(1, 1), Block(FREE, 5)]
    ensures Checksum(Expand(Compacted([1, 1], [2, 3]))) == 1
  {
    var bs := [Block(0, 1), Block(FREE, 2), Block(1, 1), Block(FREE, 3)];
    var d := [Block(0, 1), Block(1, 1), Block(FREE, 5)];
    ExampleInitial();
    CompactedUnfold([1, 1], [2, 3], bs);
    ExampleDefrag();
    CorrectedDisk();
    ExampleChecksums();
  }
}
