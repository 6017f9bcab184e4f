// Day 5, part 2: page ordering rules "X|Y" say that page X must come
// before page Y when both are in an update.  Each update is checked page by
// page; a page that must come before a page already seen is moved back to
// the first such page, the pages from there on shifting one place right.
// The sum is over the middle pages of the updates that needed correcting.

module PrintQueue {
  datatype OrderRule = OrderRule(first: int, second: int)

  /** A rule says page `a` must come before page `b`. */
  predicate Precedes(rules: seq<OrderRule>, a: int, b: int) {
    OrderRule(a, b) in rules
  }

  /** Page `m` of `u` need not precede any page before it. */
  ghost predicate NoneBefore(rules: seq<OrderRule>, u: seq<int>, m: int)
    requires 0 <= m < |u|
  {
    forall k :: 0 <= k < m ==> !Precedes(rules, u[m], u[k])
  }

  /** The first `n` pages obey the rules, page by page. */
  ghost predicate InOrderUpTo(rules: seq<OrderRule>, u: seq<int>, n: nat)
    requires n <= |u|
  {
    n == 0 || (InOrderUpTo(rules, u, n - 1) && NoneBefore(rules, u, n - 1))
  }

  /** The update obeys every rule: no rule asks for a later page to come
    * before an earlier one. */
  ghost predicate InOrder(rules: seq<OrderRule>, u: seq<int>) {
    forall i, k :: 0 <= k < i < |u| ==> !Precedes(rules, u[i], u[k])
  }

  lemma {:induction false} InOrderUpToPairs(rules: seq<OrderRule>, u: seq<int>, n: nat)
    requires n <= |u|
    ensures InOrderUpTo(rules, u, n) <==> forall i, k :: 0 <= k < i < n ==> !Precedes(rules, u[i], u[k])
  {
    if n > 0 {
      InOrderUpToPairs(rules, u, n - 1);
    }
  }

  /** The rules order the pages of `u` strictly and totally, as the puzzle
    * promises of its inputs. */
  ghost predicate StrictOrderOn(rules: seq<OrderRule>, u: seq<int>) {
    (forall a, b :: a in u && b in u && a != b ==> Precedes(rules, a, b) || Precedes(rules, b, a)) &&
    (forall a, b {:trigger Precedes(rules, a, b)} :: a in u && b in u && Precedes(rules, a, b) ==> !Precedes(rules, b, a)) &&
    (forall a, b, c {:trigger Precedes(rules, a, b), Precedes(rules, b, c)} ::
       a in u && b in u && c in u && Precedes(rules, a, b) && Precedes(rules, b, c) ==> Precedes(rules, a, c))
  }

  /** The first index of `p` from `k` on holding a page that `page` must
    * precede, or `|p|` when there is none. */
  function FirstFollower(rules: seq<OrderRule>, p: seq<int>, page: int, k: nat): (r: nat)
    requires k <= |p|
    ensures k <= r <= |p|
    ensures forall j :: k <= j < r ==> !Precedes(rules, page, p[j])
    ensures r < |p| ==> Precedes(rules, page, p[r])
    decreases |p| - k
  {
    if k == |p| then k
    else if Precedes(rules, page, p[k]) then k
    else FirstFollower(rules, p, page, k + 1)
  }

  function Insert(p: seq<int>, j: nat, page: int): seq<int>
    requires j <= |p|
  {
    p[..j] + [page] + p[j..]
  }

  /** The first `n` pages after correction: each page in turn is inserted
    * into the corrected pages before it, in front of the first one it must
    * precede, or kept at the end when there is none. */
  function CorrectedUpTo(rules: seq<OrderRule>, u: seq<int>, n: nat): (c: seq<int>)
    requires n <= |u|
    ensures |c| == n
  {
    if n == 0 then []
    else
      var p := CorrectedUpTo(rules, u, n - 1);
      Insert(p, FirstFollower(rules, p, u[n - 1], 0), u[n - 1])
  }

  /** Correction only reorders the pages. */
  lemma {:induction false} CorrectedPermutes(rules: seq<OrderRule>, u: seq<int>, n: nat)
    requires n <= |u|
    ensures multiset(CorrectedUpTo(rules, u, n)) == multiset(u[..n])
  {
    if n > 0 {
      CorrectedPermutes(rules, u, n - 1);
      var p := CorrectedUpTo(rules, u, n - 1);
      var c := CorrectedUpTo(rules, u, n);
      var j := FirstFollower(rules, p, u[n - 1], 0);
      assert c == Insert(p, j, u[n - 1]);
      StepPermutes(c, p, j, u, n);
    } else {
      assert u[..n] == [];
    }
  }

  lemma StepPermutes(c: seq<int>, p: seq<int>, j: nat, u: seq<int>, n: nat)
    requires 0 < n <= |u| && j <= |p| && c == Insert(p, j, u[n - 1]) && multiset(p) == multiset(u[..n - 1])
    ensures multiset(c) == multiset(u[..n])
  {
    InsertPermutes(p, j, u[n - 1], u[..n - 1]);
    PrefixStep(u, n - 1);
  }

  lemma PrefixStep(u: seq<int>, n: nat)
    requires n < |u|
    ensures u[..n + 1] == u[..n] + [u[n]]
  {
  }

  lemma InsertPermutes(p: seq<int>, j: nat, page: int, a: seq<int>)
    requires j <= |p| && multiset(p) == multiset(a)
    ensures multiset(Insert(p, j, page)) == multiset(a + [page])
  {
    assert p == p[..j] + p[j..];
  }

  /** The whole update after correction. */
  function Corrected(rules: seq<OrderRule>, u: seq<int>): seq<int> {
    CorrectedUpTo(rules, u, |u|)
  }

  lemma {:induction false} InOrderUnchangedUpTo(rules: seq<OrderRule>, u: seq<int>, n: nat)
    requires n <= |u| && forall i, k :: 0 <= k < i < n ==> !Precedes(rules, u[i], u[k])
    ensures CorrectedUpTo(rules, u, n) == u[..n]
  {
    if n > 0 {
      InOrderUnchangedUpTo(rules, u, n - 1);
      var p := u[..n - 1];
      assert forall k :: 0 <= k < n - 1 ==> !Precedes(rules, u[n - 1], p[k]);
      assert FirstFollower(rules, p, u[n - 1], 0) == n - 1;
      assert p[..n - 1] == p && p[n - 1..] == [];
      assert u[..n] == p + [u[n - 1]];
    }
  }

  /** An update already in order is left as it is. */
  lemma InOrderUnchanged(rules: seq<OrderRule>, u: seq<int>)
    requires InOrder(rules, u)
    ensures Corrected(rules, u) == u
  {
    InOrderUnchangedUpTo(rules, u, |u|);
    assert u[..|u|] == u;
  }

  lemma {:induction false} CorrectedInOrderUpTo(rules: seq<OrderRule>, u: seq<int>, n: nat)
    requires n <= |u| && StrictOrderOn(rules, u)
    ensures InOrder(rules, CorrectedUpTo(rules, u, n))
  {
    if n > 0 {
      CorrectedInOrderUpTo(rules, u, n - 1);
      CorrectedPermutes(rules, u, n - 1);
      var p := CorrectedUpTo(rules, u, n - 1);
      var c := CorrectedUpTo(rules, u, n);
      var j := FirstFollower(rules, p, u[n - 1], 0);
      assert c == Insert(p, j, u[n - 1]);
      StepInOrder(rules, u, n, p, j, c);
    } else {
      assert CorrectedUpTo(rules, u, n) == [];
    }
  }

  lemma StepInOrder(rules: seq<OrderRule>, u: seq<int>, n: nat, p: seq<int>, j: nat, c: seq<int>)
    requires 0 < n <= |u| && StrictOrderOn(rules, u) && multiset(p) == multiset(u[..n - 1])
    requires InOrder(rules, p) && j == FirstFollower(rules, p, u[n - 1], 0) && c == Insert(p, j, u[n - 1])
    ensures InOrder(rules, c)
  {
    PrefixValues(p, u, n - 1);
    InsertInOrder(rules, u, p, j, u[n - 1]);
  }

  /** A reordering of a prefix of `u` holds only values of `u`. */
  lemma PrefixValues(p: seq<int>, u: seq<int>, m: nat)
    requires m <= |u| && multiset(p) == multiset(u[..m])
    ensures forall x :: x in p ==> x in u
  {
    forall x | x in p
      ensures x in u
    {
      assert x in multiset(p);
      assert x in multiset(u[..m]);
      assert x in u[..m];
    }
  }

  /** When the rules order the pages strictly and totally, the corrected
    * update is in order. */
  lemma CorrectedInOrder(rules: seq<OrderRule>, u: seq<int>)
    requires StrictOrderOn(rules, u)
    ensures InOrder(rules, Corrected(rules, u))
  {
    CorrectedInOrderUpTo(rules, u, |u|);
  }

  /** One insertion step of `CorrectedInOrder`. */
  lemma InsertInOrder(rules: seq<OrderRule>, u: seq<int>, p: seq<int>, j: nat, page: int)
    requires StrictOrderOn(rules, u) && page in u && forall x :: x in p ==> x in u
    requires InOrder(rules, p) && j == FirstFollower(rules, p, page, 0)
    ensures InOrder(rules, Insert(p, j, page))
  {
    var c := Insert(p, j, page);
    assert forall i :: 0 <= i < j ==> c[i] == p[i];
    assert c[j] == page;
    assert forall i :: j < i < |c| ==> c[i] == p[i - 1];
    forall i, k | 0 <= k < i < |c|
      ensures !Precedes(rules, c[i], c[k])
    {
      if i < j {
      } else if i == j {
        assert c[k] == p[k];
      } else if k < j {
        assert c[i] == p[i - 1] && c[k] == p[k];
      } else if k == j {
        // p[j] follows page, and p[i - 1] is p[j] or comes after it
        var x := p[i - 1];
        assert p[j] in p && x in p;
        assert Precedes(rules, page, p[j]);
        if x == p[j] {
        } else {
          assert !Precedes(rules, x, p[j]);
          assert Precedes(rules, p[j], x);
          assert Precedes(rules, page, x);
        }
      } else {
        assert c[i] == p[i - 1] && c[k] == p[k - 1];
      }
    }
  }

  /** `arr_contains`: a linear search for `n`. */
  method ArrContains(arr: seq<int>, n: int) returns (found: bool)
    ensures found <==> n in arr
  {
    for i := 0 to |arr|
      invariant n !in arr[..i]
    {
      if n == arr[i] {
        return true;
      }
    }
    return false;
  }

  /** `pages_that_must_follow`: the second pages of the active rules whose
    * first page is `n`, in rule order. */
  method PagesThatMustFollow(active: seq<OrderRule>, n: int) returns (following: seq<int>)
    ensures |following| <= |active|
    ensures forall x :: x in following <==> OrderRule(n, x) in active
  {
    following := [];
    for i := 0 to |active|
      invariant |following| <= i
      invariant forall x :: x in following <==> OrderRule(n, x) in active[..i]
    {
      assert active[..i + 1] == active[..i] + [active[i]];
      if n == active[i].first {
        following := following + [active[i].second];
      }
    }
    assert active[..|active|] == active;
  }

  /** The search for the new index: the first index whose page is in
    * `following`, which is below `bound` because one is. */
  method FindNewIndex(pages: array<int>, following: seq<int>, bound: int) returns (newIndex: int)
    requires 0 <= bound <= pages.Length
    requires exists k :: 0 <= k < bound && pages[k] in following
    ensures 0 <= newIndex < bound && pages[newIndex] in following
    ensures forall k :: 0 <= k < newIndex ==> pages[k] !in following
  {
    newIndex := 0;
    var hit := ArrContains(following, pages[newIndex]);
    while !hit
      invariant 0 <= newIndex < bound
      invariant hit <==> pages[newIndex] in following
      invariant forall k :: 0 <= k < newIndex ==> pages[k] !in following
      invariant exists k :: newIndex <= k < bound && pages[k] in following
      decreases bound - newIndex
    {
      newIndex := newIndex + 1;
      hit := ArrContains(following, pages[newIndex]);
    }
  }

  /** The shift: the page at `i` moves to `newIndex` and the pages between
    * move one place right. */
  method MoveBack(pages: array<int>, newIndex: int, i: int)
    requires 0 <= newIndex <= i < pages.Length
    modifies pages
    ensures pages[..] == Insert(old(pages[..i]), newIndex, old(pages[i])) + old(pages[i + 1..])
  {
    var page := pages[i];
    ghost var before := pages[..];
    var j := i;
    while j > newIndex
      invariant newIndex <= j <= i
      invariant forall k :: 0 <= k <= j ==> pages[k] == before[k]
      invariant forall k :: j < k <= i ==> pages[k] == before[k - 1]
      invariant forall k :: i < k < pages.Length ==> pages[k] == before[k]
      modifies pages
    {
      pages[j] := pages[j - 1];
      j := j - 1;
    }
    pages[newIndex] := page;
    assert pages[..] == Insert(before[..i], newIndex, page) + before[i + 1..];
  }

  /** Correcting one more page inserts it into the corrected prefix. */
  lemma CorrectedStep(rules: seq<OrderRule>, u: seq<int>, n: nat, c: seq<int>)
    requires n < |u|
    requires var p := CorrectedUpTo(rules, u, n); c == Insert(p, FirstFollower(rules, p, u[n], 0), u[n])
    ensures c == CorrectedUpTo(rules, u, n + 1)
  {
  }

  /** Two sequences with the same multiset hold the same values. */
  lemma SameValues(p: seq<int>, v: seq<int>)
    requires multiset(p) == multiset(v)
    ensures forall x :: x in p <==> x in v
  {
    forall x
      ensures x in p <==> x in v
    {
      assert x in p <==> x in multiset(p);
      assert x in v <==> x in multiset(v);
    }
  }

  /** The first index at which a page that `page` must precede sits is
    * the one `FirstFollower` names. */
  lemma FirstFollowerIs(rules: seq<OrderRule>, p: seq<int>, page: int, idx: nat)
    requires idx <= |p|
    requires forall k :: 0 <= k < idx ==> !Precedes(rules, page, p[k])
    requires idx < |p| ==> Precedes(rules, page, p[idx])
    ensures FirstFollower(rules, p, page, 0) == idx
  {
  }

  /** The pages that must follow page `i` are, among the pages before it,
    * those it must precede; there is one exactly when `i` is out of order. */
  lemma FollowersMeaning(rules: seq<OrderRule>, orig: seq<int>, i: nat, p: seq<int>, following: seq<int>)
    requires i < |orig| && multiset(p) == multiset(orig[..i])
    requires forall x :: x in following <==> x in orig[..i] && Precedes(rules, orig[i], x)
    ensures forall k :: 0 <= k < |p| ==> (p[k] in following <==> Precedes(rules, orig[i], p[k]))
    ensures |following| > 0 <==> !NoneBefore(rules, orig, i)
    ensures |following| > 0 ==> exists k :: 0 <= k < |p| && p[k] in following
  {
    SameValues(p, orig[..i]);
    forall k | 0 <= k < |p|
      ensures p[k] in following <==> Precedes(rules, orig[i], p[k])
    {
      assert p[k] in p;
    }
    if |following| > 0 {
      var x := following[0];
      assert x in following;
      assert x in orig[..i];
      var k :| 0 <= k < i && orig[..i][k] == x;
      assert orig[k] == x;
      assert !NoneBefore(rules, orig, i);
      assert x in p;
    }
    if !NoneBefore(rules, orig, i) {
      var k :| 0 <= k < i && Precedes(rules, orig[i], orig[k]);
      assert orig[..i][k] == orig[k];
      assert orig[k] in following;
    }
  }

  /** One page of `is_valid_update`: the page at `i` is moved back in front
    * of the first page of the corrected prefix that it must precede, when
    * there is one, and `moved` says whether it must precede any page before
    * it. */
  method CorrectPage(ghost rules: seq<OrderRule>, active: seq<OrderRule>, pages: array<int>, i: int,
                     ghost orig: seq<int>) returns (moved: bool)
    requires 0 <= i < pages.Length == |orig|
    requires multiset(pages[..i]) == multiset(orig[..i]) && pages[i..] == orig[i..]
    requires active == ActiveUpTo(rules, orig, i)
    modifies pages
    ensures pages[..i + 1] == Insert(old(pages[..i]), FirstFollower(rules, old(pages[..i]), orig[i], 0), orig[i])
    ensures pages[i + 1..] == orig[i + 1..]
    ensures moved <==> !NoneBefore(rules, orig, i)
  {
    var page := pages[i];
    assert page == orig[i];
    ghost var p := pages[..i];
    ActiveMembers(rules, orig, i);
    var following := PagesThatMustFollow(active, page);
    FollowersMeaning(rules, orig, i, p, following);
    moved := |following| > 0;
    if moved {
      var newIndex := FindNewIndex(pages, following, i);
      FirstFollowerIs(rules, p, page, newIndex);
      MoveBack(pages, newIndex, i);
    } else {
      FirstFollowerIs(rules, p, page, i);
      assert p[..i] == p && p[i..] == [];
      assert pages[..i + 1] == p + [page];
    }
  }

  /** The rules among the first `k` whose second page is `page`, in rule
    * order. */
  function ActivatedUpTo(rules: seq<OrderRule>, page: int, k: nat): seq<OrderRule>
    requires k <= |rules|
  {
    if k == 0 then []
    else ActivatedUpTo(rules, page, k - 1) + (if rules[k - 1].second == page then [rules[k - 1]] else [])
  }

  /** The rules active once the first `n` pages of `u` have been seen: those
    * whose second page is one of them, page by page. */
  function ActiveUpTo(rules: seq<OrderRule>, u: seq<int>, n: nat): seq<OrderRule>
    requires n <= |u|
  {
    if n == 0 then [] else ActiveUpTo(rules, u, n - 1) + ActivatedUpTo(rules, u[n - 1], |rules|)
  }

  lemma {:induction false} ActivatedMembers(rules: seq<OrderRule>, page: int, k: nat)
    requires k <= |rules|
    ensures forall o :: o in ActivatedUpTo(rules, page, k) <==> o in rules[..k] && o.second == page
  {
    if k > 0 {
      ActivatedMembers(rules, page, k - 1);
      assert rules[..k] == rules[..k - 1] + [rules[k - 1]];
    }
  }

  /** A rule is active exactly when it is a rule and its second page has been
    * seen. */
  lemma {:induction false} ActiveMembers(rules: seq<OrderRule>, u: seq<int>, n: nat)
    requires n <= |u|
    ensures forall o :: o in ActiveUpTo(rules, u, n) <==> o in rules && o.second in u[..n]
  {
    if n > 0 {
      ActiveMembers(rules, u, n - 1);
      ActivatedMembers(rules, u[n - 1], |rules|);
      assert rules[..|rules|] == rules;
      assert u[..n] == u[..n - 1] + [u[n - 1]];
    }
  }

  /** The loop at the end of each page of `is_valid_update`: the rules whose
    * second page is `page` join the active ones. */
  method ActivateRules(rules: seq<OrderRule>, active: seq<OrderRule>, page: int)
      returns (active': seq<OrderRule>)
    ensures active' == active + ActivatedUpTo(rules, page, |rules|)
  {
    active' := active;
    for r := 0 to |rules|
      invariant active' == active + ActivatedUpTo(rules, page, r)
    {
      if rules[r].second == page {
        active' := active' + [rules[r]];
      }
    }
  }

  /** `is_valid_update`: corrects `pages` in place and reports whether the
    * update was in order to begin with. */
  method IsValidUpdate(rules: seq<OrderRule>, pages: array<int>) returns (wasValid: bool)
    modifies pages
    ensures pages[..] == Corrected(rules, old(pages[..]))
    ensures wasValid <==> InOrder(rules, old(pages[..]))
  {
    ghost var orig := pages[..];
    wasValid := true;
    // a rule is active once its second page has been seen
    var active: seq<OrderRule> := [];
    for i := 0 to pages.Length
      invariant pages[..i] == CorrectedUpTo(rules, orig, i) && pages[i..] == orig[i..]
      invariant active == ActiveUpTo(rules, orig, i)
      invariant wasValid <==> InOrderUpTo(rules, orig, i)
    {
      var page := pages[i];
      assert page == orig[i];
      CorrectedPermutes(rules, orig, i);
      var moved := CorrectPage(rules, active, pages, i, orig);
      CorrectedStep(rules, orig, i, pages[..i + 1]);
      if moved {
        wasValid := false;
      }
      // forbid later pages that must come before this one
      active := ActivateRules(rules, active, page);
    }
    assert pages[..pages.Length] == pages[..];
    InOrderUpToPairs(rules, orig, pages.Length);
  }

  /** The page an update adds to the sum: the middle page of the corrected
    * update when the update was out of order, and nothing otherwise. */
  ghost function MiddleIfInvalid(rules: seq<OrderRule>, u: seq<int>): int {
    if InOrder(rules, u) then 0
    else
      assert |u| > 0;
      Corrected(rules, u)[|u| / 2]
  }

  /** The sum over the updates of what each adds. */
  ghost function InvalidMiddleSum(rules: seq<OrderRule>, us: seq<seq<int>>): int {
    if us == [] then 0
    else InvalidMiddleSum(rules, us[..|us| - 1]) + MiddleIfInvalid(rules, us[|us| - 1])
  }

  /** Updates that are all in order add nothing. */
  lemma {:induction false} ValidUpdatesAddNothing(rules: seq<OrderRule>, us: seq<seq<int>>)
    requires forall k :: 0 <= k < |us| ==> InOrder(rules, us[k])
    ensures InvalidMiddleSum(rules, us) == 0
  {
    if us != [] {
      ValidUpdatesAddNothing(rules, us[..|us| - 1]);
    }
  }

  /** An update out of order adds a page of its own. */
  lemma InvalidAddsOwnPage(rules: seq<OrderRule>, u: seq<int>)
    requires !InOrder(rules, u)
    ensures MiddleIfInvalid(rules, u) in u
  {
    CorrectedPermutes(rules, u, |u|);
    assert u[..|u|] == u;
    var c := Corrected(rules, u);
    assert c[|u| / 2] in multiset(c);
  }

  /** The pages of each update. */
  function Contents(us: seq<array<int>>): (cs: seq<seq<int>>)
    reads set k | 0 <= k < |us| :: us[k]
    ensures |cs| == |us| && forall k :: 0 <= k < |us| ==> cs[k] == us[k][..]
  {
    if us == [] then [] else Contents(us[..|us| - 1]) + [us[|us| - 1][..]]
  }

  /** `sum_of_corrected_invalid_middles`: corrects every update in place and
    * adds up the middle pages of those that were out of order. */
  method SumOfCorrectedInvalidMiddles(rules: seq<OrderRule>, updates: seq<array<int>>) returns (sum: int)
    requires forall a, b :: 0 <= a < b < |updates| ==> updates[a] != updates[b]
    modifies set k | 0 <= k < |updates| :: updates[k]
    ensures forall k :: 0 <= k < |updates| ==> updates[k][..] == Corrected(rules, old(updates[k][..]))
    ensures sum == InvalidMiddleSum(rules, old(Contents(updates)))
  {
    ghost var before := Contents(updates);
    sum := 0;
    for k := 0 to |updates|
      invariant forall m :: 0 <= m < k ==> updates[m][..] == Corrected(rules, before[m])
      invariant forall m :: k <= m < |updates| ==> updates[m][..] == before[m]
      invariant sum == InvalidMiddleSum(rules, before[..k])
    {
      var wasValid := IsValidUpdate(rules, updates[k]);
      assert before[..k + 1][..k] == before[..k];
      if !wasValid {
        sum := sum + updates[k][updates[k].Length / 2];
      }
    }
    assert before[..|updates|] == before;
  }
}
