// The binary min-heap the maze solvers share: an array that doubles when
// full, ordered by each entry's key (a score or a step count).  Every solver
// defines its own copy of `push_pq`, `pop_pq`, `sift_down_pq` and
// `peek_pq`; the copies differ only in the payload and in what `pop_pq`
// does on an empty heap.

module MinHeap {
  import opened CArith

  /** A queued move: the key it is ordered by, the cell it reaches, the
    * heading it arrives with and whether it was a forward step. Solvers
    * that do not record a heading or a move kind leave them at 0 / false. */
  datatype Entry = Entry(key: int, row: int, col: int, dir: int, forward: bool)

  /** What `pop_pq` of the step-counting solvers returns on an empty heap. */
  const EMPTY_SENTINEL: Entry := Entry(-1, 0, 0, 0, false)

  /** C's `(k - 1) / 2`; at the root it truncates to the root itself. */
  function ParentIndex(k: int): (p: int)
    requires k >= 0
    ensures k == 0 ==> p == 0
    ensures k > 0 ==> p == (k - 1) / 2 && 0 <= p < k
  {
    CDiv(k - 1, 2)
  }

  /** Entry `i` (not the root) is no smaller than its parent. */
  ghost predicate OrderedAt(s: seq<Entry>, i: int)
    requires 0 < i < |s|
  {
    s[(i - 1) / 2].key <= s[i].key
  }

  /** Every non-root entry's key is at least its parent's. */
  ghost predicate HeapOrdered(s: seq<Entry>) {
    forall i :: 0 < i < |s| ==> OrderedAt(s, i)
  }

  /** The root of an ordered heap holds a minimal key. */
  lemma {:induction false} RootIsMinimum(s: seq<Entry>, i: int)
    requires HeapOrdered(s) && 0 <= i < |s|
    ensures s[0].key <= s[i].key
    decreases i
  {
    if i > 0 {
      assert OrderedAt(s, i);
      RootIsMinimum(s, (i - 1) / 2);
    }
  }

  /** `k`'s parent is no larger than `k`'s children (vacuous at the root). */
  ghost predicate GrandparentBound(s: seq<Entry>, k: int)
    requires 0 <= k < |s|
  {
    k > 0 ==>
      (2 * k + 1 < |s| ==> s[(k - 1) / 2].key <= s[2 * k + 1].key) &&
      (2 * k + 2 < |s| ==> s[(k - 1) / 2].key <= s[2 * k + 2].key)
  }

  /** The sift-up invariant: ordered except possibly between `k` and its
    * parent. */
  ghost predicate UpExcept(s: seq<Entry>, k: int) {
    0 <= k < |s| &&
    (forall i :: 0 < i < |s| && i != k ==> OrderedAt(s, i)) &&
    GrandparentBound(s, k)
  }

  /** The sift-down invariant: ordered except possibly between `k` and its
    * children. */
  ghost predicate DownExcept(s: seq<Entry>, k: int) {
    0 <= k &&
    (forall i :: 0 < i < |s| && (i - 1) / 2 != k ==> OrderedAt(s, i)) &&
    (k < |s| ==> GrandparentBound(s, k))
  }

  function Swap(s: seq<Entry>, i: int, j: int): (r: seq<Entry>)
    requires 0 <= i < |s| && 0 <= j < |s|
    ensures |r| == |s| && multiset(r) == multiset(s)
    ensures r[i] == s[j] && r[j] == s[i]
    ensures forall m :: 0 <= m < |s| && m != i && m != j ==> r[m] == s[m]
  {
    s[i := s[j]][j := s[i]]
  }

  lemma AppendUp(s: seq<Entry>, val: Entry)
    requires HeapOrdered(s)
    ensures UpExcept(s + [val], |s|)
  {
    var t := s + [val];
    forall i | 0 < i < |t| && i != |s|
      ensures OrderedAt(t, i)
    {
      assert OrderedAt(s, i);
    }
  }

  lemma UpDone(s: seq<Entry>, k: int)
    requires UpExcept(s, k)
    requires k > 0 ==> s[(k - 1) / 2].key <= s[k].key
    ensures HeapOrdered(s)
  {
  }

  lemma SwapUpStep(s: seq<Entry>, k: int)
    requires UpExcept(s, k) && k > 0
    requires s[k].key < s[(k - 1) / 2].key
    ensures UpExcept(Swap(s, k, (k - 1) / 2), (k - 1) / 2)
  {
    var p := (k - 1) / 2;
    var t := Swap(s, k, p);
    forall i | 0 < i < |t| && i != p
      ensures OrderedAt(t, i)
    {
      var q := (i - 1) / 2;
      if i == k {
      } else if q == k {
        assert i == 2 * k + 1 || i == 2 * k + 2;
      } else if q == p {
        assert OrderedAt(s, i);
      } else if i != p {
        assert OrderedAt(s, i);
      }
    }
    if p > 0 {
      assert OrderedAt(s, p);
      var sib := if k == 2 * p + 1 then 2 * p + 2 else 2 * p + 1;
      if sib < |s| {
        assert OrderedAt(s, sib);
      }
    }
  }

  lemma DownDone(s: seq<Entry>, k: int)
    requires DownExcept(s, k) && k < |s|
    requires 2 * k + 1 < |s| ==> s[k].key <= s[2 * k + 1].key
    requires 2 * k + 2 < |s| ==> s[k].key <= s[2 * k + 2].key
    ensures HeapOrdered(s)
  {
    forall i | 0 < i < |s|
      ensures OrderedAt(s, i)
    {
      if (i - 1) / 2 == k {
        assert i == 2 * k + 1 || i == 2 * k + 2;
      }
    }
  }

  lemma SwapDownStep(s: seq<Entry>, k: int, c: int)
    requires DownExcept(s, k) && 0 <= k < c < |s|
    requires c == 2 * k + 1 || c == 2 * k + 2
    requires s[c].key < s[k].key
    requires 2 * k + 1 < |s| ==> s[c].key <= s[2 * k + 1].key
    requires 2 * k + 2 < |s| ==> s[c].key <= s[2 * k + 2].key
    ensures DownExcept(Swap(s, k, c), c)
  {
    var t := Swap(s, k, c);
    forall i | 0 < i < |t| && (i - 1) / 2 != c
      ensures OrderedAt(t, i)
    {
      var q := (i - 1) / 2;
      if q == k {
        assert i == 2 * k + 1 || i == 2 * k + 2;
      } else if i == k {
        assert GrandparentBound(s, k);
      } else {
        assert OrderedAt(s, i);
      }
    }
    if 2 * c + 1 < |s| {
      assert OrderedAt(s, 2 * c + 1);
    }
    if 2 * c + 2 < |s| {
      assert OrderedAt(s, 2 * c + 2);
    }
  }

  /** Moving the last entry to the root leaves the rest ordered. */
  lemma RemoveRoot(s: seq<Entry>, t: seq<Entry>)
    requires HeapOrdered(s) && |s| > 0 && t == s[0 := s[|s| - 1]][..|s| - 1]
    ensures DownExcept(t, 0) && multiset(t) == multiset(s) - multiset{s[0]}
  {
    var n := |s| - 1;
    if n > 0 {
      assert s == [s[0]] + s[1..n] + [s[n]];
      assert t == [s[n]] + s[1..n];
      forall i | 0 < i < |t| && (i - 1) / 2 != 0
        ensures OrderedAt(t, i)
      {
        assert OrderedAt(s, i);
      }
    } else {
      assert s == [s[0]];
    }
  }

  class Heap {
    var arr: array<Entry>
    var len: int

    ghost predicate Valid()
      reads this, arr
    {
      0 <= len <= arr.Length && HeapOrdered(arr[..len])
    }

    /** The empty heap `{.arr = NULL, .len = 0, .cap = 0}`. */
    constructor()
      ensures Valid() && len == 0 && arr.Length == 0 && fresh(arr)
    {
      arr := new Entry[0];
      len := 0;
    }

    /** `peek_pq`: the root, an entry of least key. */
    function Peek(): (e: Entry)
      reads this, arr
      requires Valid() && len > 0
      ensures e == arr[0] && e in arr[..len]
      ensures forall i :: 0 <= i < len ==> e.key <= arr[i].key
    {
      var e := arr[0];
      assert e == arr[..len][0];
      forall i | 0 <= i < len
        ensures e.key <= arr[i].key
      {
        RootIsMinimum(arr[..len], i);
        assert arr[..len][i] == arr[i];
      }
      e
    }

    /** `resize_pq`: moves the entries to a fresh array of `newCap` slots. */
    method Resize(newCap: int)
      requires 0 <= len <= arr.Length && len <= newCap
      modifies this
      ensures fresh(arr) && arr.Length == newCap
      ensures len == old(len) && arr[..len] == old(arr[..len])
    {
      var bigger := new Entry[newCap](_ => EMPTY_SENTINEL);
      forall i | 0 <= i < len {
        bigger[i] := arr[i];
      }
      assert bigger[..len] == arr[..len];
      arr := bigger;
    }

    /** `push_pq`: grows the array when full (doubling it, or to one slot
      * when it had none), appends `val` and sifts it up. */
    method Push(val: Entry)
      requires Valid()
      modifies this, arr
      ensures Valid() && len == old(len) + 1 && (arr == old(arr) || fresh(arr))
      ensures arr.Length == if old(len) + 1 > old(arr.Length)
                            then (if old(arr.Length) == 0 then 1 else 2 * old(arr.Length))
                            else old(arr.Length)
      ensures multiset(arr[..len]) == multiset(old(arr[..len])) + multiset{val}
    {
      var thisElement := len;
      var parent := ParentIndex(thisElement);
      if len + 1 > arr.Length {
        Resize(if arr.Length != 0 then arr.Length * 2 else 1);
      }
      ghost var before := arr[..len];
      arr[len] := val;
      len := len + 1;
      assert arr[..len] == before + [val];
      AppendUp(before, val);
      SiftUp(thisElement, parent);
    }

    /** The sift-up loop of `push_pq`: while the entry at `thisElement` is
      * smaller than its parent and not at the root, swap the two. */
    method SiftUp(thisElement: int, parent: int)
      requires 0 <= thisElement < len <= arr.Length
      requires UpExcept(arr[..len], thisElement) && parent == ParentIndex(thisElement)
      modifies arr
      ensures HeapOrdered(arr[..len])
      ensures multiset(arr[..len]) == multiset(old(arr[..len]))
    {
      var thisElement, parent := thisElement, parent;
      while arr[thisElement].key < arr[parent].key && thisElement != 0
        invariant 0 <= thisElement < len
        invariant UpExcept(arr[..len], thisElement) && parent == ParentIndex(thisElement)
        invariant multiset(arr[..len]) == multiset(old(arr[..len]))
        decreases thisElement
      {
        ghost var s := arr[..len];
        SwapUpStep(s, thisElement);
        arr[thisElement], arr[parent] := arr[parent], arr[thisElement];
        assert arr[..len] == Swap(s, thisElement, parent);
        thisElement := parent;
        parent := ParentIndex(thisElement);
      }
      UpDone(arr[..len], thisElement);
    }

    /** `sift_down_pq`: swaps the entry at `parentIndex` with its strictly
      * smallest child (the left one on a tie) until it is no larger than
      * both children. */
    method SiftDown(parentIndex: int)
      requires 0 <= parentIndex < arr.Length && 0 <= len <= arr.Length
      requires DownExcept(arr[..len], parentIndex)
      modifies arr
      ensures HeapOrdered(arr[..len])
      ensures multiset(arr[..len]) == multiset(old(arr[..len]))
      decreases len - parentIndex
    {
      var minIndex := SmallestOfFamily(parentIndex);
      if minIndex != parentIndex {
        ghost var s := arr[..len];
        SwapDownStep(s, parentIndex, minIndex);
        arr[parentIndex], arr[minIndex] := arr[minIndex], arr[parentIndex];
        assert arr[..len] == Swap(s, parentIndex, minIndex) by {
          forall i | 0 <= i < len
            ensures arr[i] == Swap(s, parentIndex, minIndex)[i]
          {
          }
        }
        SiftDown(minIndex);
      } else if parentIndex < len {
        DownDone(arr[..len], parentIndex);
      }
    }

    /** The comparisons of `sift_down_pq`: the index of the smallest of the
      * entry at `parentIndex` and its children within `len`, preferring
      * the parent, then the left child, on ties. */
    method SmallestOfFamily(parentIndex: int) returns (minIndex: int)
      requires 0 <= parentIndex < arr.Length && 0 <= len <= arr.Length
      ensures minIndex == parentIndex || (minIndex == 2 * parentIndex + 1 && minIndex < len) ||
              (minIndex == 2 * parentIndex + 2 && minIndex < len)
      ensures arr[minIndex].key <= arr[parentIndex].key
      ensures minIndex != parentIndex ==> arr[minIndex].key < arr[parentIndex].key
      ensures 2 * parentIndex + 1 < len ==> arr[minIndex].key <= arr[2 * parentIndex + 1].key
      ensures 2 * parentIndex + 2 < len ==> arr[minIndex].key <= arr[2 * parentIndex + 2].key
      ensures minIndex == 2 * parentIndex + 2 ==> arr[minIndex].key < arr[2 * parentIndex + 1].key
    {
      var left := parentIndex * 2 + 1;
      var right := left + 1;
      var parentVal := arr[parentIndex].key;
      var minVal := parentVal;
      minIndex := parentIndex;
      if left < len {
        var leftVal := arr[left].key;
        if leftVal < minVal {
          minIndex := left;
          minVal := leftVal;
        }
      }
      if right < len {
        var rightVal := arr[right].key;
        if rightVal < minVal {
          minIndex := right;
          minVal := rightVal;
        }
      }
    }

    /** `pop_pq` of the scoring solvers: moves the last entry to the root
      * and sifts it down. The caller reads the root with `Peek` first. */
    method Pop()
      requires Valid() && len > 0
      modifies this, arr
      ensures Valid() && arr == old(arr) && len == old(len) - 1
      ensures multiset(arr[..len]) == multiset(old(arr[..len])) - multiset{old(arr[0])}
    {
      ghost var s := arr[..len];
      ghost var t := s[0 := s[len - 1]][..len - 1];
      RemoveRoot(s, t);
      MoveLastToRoot();
      SiftDown(0);
    }

    /** The first step of `pop_pq`: drop the last entry and store it at the
      * root. */
    method MoveLastToRoot()
      requires 0 < len <= arr.Length
      modifies this, arr
      ensures arr == old(arr) && len == old(len) - 1
      ensures arr[..len] == old(arr[..len][0 := arr[len - 1]][..len - 1])
    {
      ghost var t := arr[..len][0 := arr[len - 1]][..len - 1];
      len := len - 1;
      var newRoot := arr[len];
      arr[0] := newRoot;
      assert arr[..len] == t by {
        forall i | 0 <= i < len
          ensures arr[i] == t[i]
        {
        }
      }
    }

    /** `pop_pq` of the step-counting solvers: on an empty heap it returns
      * `EMPTY_SENTINEL` and changes nothing; otherwise it removes and
      * returns the root, an entry of least key. */
    method PopOrEmpty() returns (top: Entry)
      requires Valid()
      modifies this, arr
      ensures Valid() && arr == old(arr)
      ensures old(len) <= 0 ==> top == EMPTY_SENTINEL && len == old(len) && arr[..] == old(arr[..])
      ensures old(len) > 0 ==> len == old(len) - 1 && top == old(arr[0])
      ensures old(len) > 0 ==> forall i :: 0 <= i < old(len) ==> top.key <= old(arr[i]).key
      ensures old(len) > 0 ==> multiset(arr[..len]) + multiset{top} == multiset(old(arr[..len]))
    {
      if len <= 0 {
        return EMPTY_SENTINEL;
      }
      top := Peek();
      Pop();
    }
  }
}
