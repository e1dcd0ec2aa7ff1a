/**
 qsort: quicksort with a median-of-three pivot that recurses only into the smaller side, and insertion
 sort for short runs. Elements are array cells; the comparator is any total preorder.
 */
module Sorting {
  import opened Powers

  /** The comparator orders: never negative both ways, one way the opposite of the other, transitive. */
  ghost predicate Orders<T(!new)>(cmp: (T, T) -> int) {
    && (forall x, y :: cmp(x, y) < 0 <==> cmp(y, x) > 0)
    && (forall x, y, z :: cmp(x, y) <= 0 && cmp(y, z) <= 0 ==> cmp(x, z) <= 0)
  }

  ghost predicate Sorted<T>(cmp: (T, T) -> int, s: seq<T>) {
    forall i, j :: 0 <= i < j < |s| ==> cmp(s[i], s[j]) <= 0
  }

  /** No element of `s` comes after one of `t`. */
  ghost predicate Below<T>(cmp: (T, T) -> int, s: seq<T>, t: seq<T>) {
    forall i, j :: 0 <= i < |s| && 0 <= j < |t| ==> cmp(s[i], t[j]) <= 0
  }

  /** Only [lo, hi) has changed, and it holds the same elements. */
  ghost predicate Rearranged<T>(was: seq<T>, now: seq<T>, lo: nat, hi: nat)
    requires lo <= hi <= |was|
  {
    |now| == |was| && now[..lo] == was[..lo] && now[hi..] == was[hi..] && multiset(now[lo..hi]) == multiset(was[lo..hi])
  }

  lemma RearrangedSelf<T>(s: seq<T>, lo: nat, hi: nat)
    requires lo <= hi <= |s|
    ensures Rearranged(s, s, lo, hi)
  {
  }

  lemma RearrangedChain<T>(s: seq<T>, t: seq<T>, u: seq<T>, lo: nat, hi: nat)
    requires lo <= hi <= |s| && Rearranged(s, t, lo, hi) && Rearranged(t, u, lo, hi)
    ensures Rearranged(s, u, lo, hi)
  {
  }

  /** What happens inside a part happens inside the whole. */
  lemma RearrangedWider<T>(s: seq<T>, t: seq<T>, lo: nat, hi: nat, lo': nat, hi': nat)
    requires lo' <= lo <= hi <= hi' <= |s| && Rearranged(s, t, lo, hi)
    ensures Rearranged(s, t, lo', hi')
  {
    assert s[lo'..hi'] == s[lo'..lo] + s[lo..hi] + s[hi..hi'];
    assert t[lo'..hi'] == t[lo'..lo] + t[lo..hi] + t[hi..hi'];
    assert t[lo'..lo] == t[..lo][lo'..] == s[..lo][lo'..] == s[lo'..lo];
    assert t[hi..hi'] == t[hi..][..hi' - hi] == s[hi..][..hi' - hi] == s[hi..hi'];
    assert t[..lo'] == t[..lo][..lo'] == s[..lo][..lo'] == s[..lo'];
    assert t[hi'..] == t[hi..][hi' - hi..] == s[hi..][hi' - hi..] == s[hi'..];
  }

  lemma Swapped<T>(s: seq<T>, i: nat, j: nat, lo: nat, hi: nat)
    requires lo <= i < hi <= |s| && lo <= j < hi
    ensures Rearranged(s, s[i := s[j]][j := s[i]], lo, hi)
  {
    var t := s[i := s[j]][j := s[i]];
    var p, q := s[lo..hi], t[lo..hi];
    assert q == p[i - lo := p[j - lo]][j - lo := p[i - lo]];
    assert multiset(q) == multiset(p);
  }

  /** A rearranged part stays on its side of a bound. */
  lemma BelowRearranged<T>(cmp: (T, T) -> int, s: seq<T>, s': seq<T>, t: seq<T>)
    requires multiset(s) == multiset(s')
    ensures Below(cmp, s, t) ==> Below(cmp, s', t)
    ensures Below(cmp, t, s) ==> Below(cmp, t, s')
  {
    forall i | 0 <= i < |s'| ensures exists k :: 0 <= k < |s| && s[k] == s'[i] {
      assert s'[i] in multiset(s');
      assert s'[i] in multiset(s);
      assert s'[i] in s;
    }
  }

  lemma SortedJoin<T>(cmp: (T, T) -> int, s: seq<T>, t: seq<T>)
    requires Sorted(cmp, s) && Sorted(cmp, t) && Below(cmp, s, t)
    ensures Sorted(cmp, s + t)
  {
  }

  /** Exchange two cells of the part that is being rearranged. */
  method SwapCells<T>(a: array<T>, i: nat, j: nat, ghost s0: seq<T>, ghost lo: nat, ghost hi: nat)
    requires lo <= i < hi <= a.Length == |s0| && lo <= j < hi && Rearranged(s0, a[..], lo, hi)
    modifies a
    ensures Rearranged(s0, a[..], lo, hi) && a[..] == old(a[..])[i := old(a[j])][j := old(a[i])]
    ensures a[i] == old(a[j]) && a[j] == old(a[i]) && forall k :: 0 <= k < a.Length && k != i && k != j ==>
              a[k] == old(a[k])
  {
    hide Rearranged;
    ghost var s := a[..];
    Swapped(s, i, j, lo, hi);
    a[i], a[j] := a[j], a[i];
    assert a[..] == s[i := s[j]][j := s[i]];
    RearrangedChain(s0, s, a[..], lo, hi);
  }

  /** The run [b, e) is parted at `j`: nothing below the pivot is larger, nothing above it smaller. */
  ghost predicate Parted<T>(cmp: (T, T) -> int, s: seq<T>, b: nat, j: nat, e: nat)
    requires b <= j < e <= |s|
  {
    && (forall k :: b <= k <= j ==> cmp(s[k], s[j]) <= 0)
    && (forall k :: j <= k < e ==> cmp(s[j], s[k]) <= 0)
  }

  /** Put a median of three in front, then part the run around it: the pivot ends up at `j`, with
      nothing larger below it and nothing smaller above. */
  method Partition<T(!new)>(a: array<T>, base: nat, n: nat, cmp: (T, T) -> int) returns (j: nat)
    requires base + n <= a.Length && n > 8 && Orders(cmp)
    modifies a
    ensures base <= j < base + n && Rearranged(old(a[..]), a[..], base, base + n)
    ensures Parted(cmp, a[..], base, j, base + n)
  {
    var lo, hi, mid := base, base + n - 1, base + n / 2;
    MedianToFront(a, base, n, lo, mid, hi, cmp);
    j := PartAround(a, base, n, cmp);
  }

  method MedianToFront<T(!new)>(a: array<T>, base: nat, n: nat, lo: nat, mid: nat, hi: nat, cmp: (T, T) -> int)
    requires base + n <= a.Length && base == lo <= mid <= hi < base + n
    modifies a
    ensures Rearranged(old(a[..]), a[..], base, base + n)
  {
    hide Rearranged;
    ghost var s0 := a[..];
    RearrangedSelf(s0, base, base + n);
    if cmp(a[mid], a[lo]) < 0 {
      SwapCells(a, mid, lo, s0, base, base + n);
    }
    if cmp(a[hi], a[mid]) < 0 {
      SwapCells(a, hi, mid, s0, base, base + n);
      if cmp(a[mid], a[lo]) < 0 {
        SwapCells(a, mid, lo, s0, base, base + n);
      }
    }
    SwapCells(a, base, mid, s0, base, base + n);
  }

  /** Part a run around its first element, which stops the downward scan without a bounds check. */
  method PartAround<T(!new)>(a: array<T>, base: nat, n: nat, cmp: (T, T) -> int) returns (j: nat)
    requires base + n <= a.Length && n > 0 && Orders(cmp)
    modifies a
    ensures base <= j < base + n && Rearranged(old(a[..]), a[..], base, base + n)
    ensures Parted(cmp, a[..], base, j, base + n)
  {
    hide Rearranged, Orders;
    ghost var s0, p := a[..], a[base];
    RearrangedSelf(s0, base, base + n);
    var hi := base + n - 1;
    var i := base;
    j := hi + 1;
    while true
      invariant base <= i <= hi && i <= j <= hi + 1 && a[base] == p && Rearranged(s0, a[..], base, base + n)
      invariant forall k :: base < k <= i ==> cmp(a[k], p) <= 0
      invariant forall k :: j <= k <= hi ==> cmp(p, a[k]) <= 0
      invariant i == base ==> j == hi + 1
      decreases j - i
    {
      i := ScanUp(a, base, i, hi, cmp);
      j := ScanDown(a, base, j, cmp);
      if i > j {
        break;
      }
      NotLess(cmp, a[i], p);
      NotLess(cmp, p, a[j]);
      SwapCells(a, i, j, s0, base, base + n);
    }
    SwapCells(a, base, j, s0, base, base + n);
    SelfLe(cmp, p);
  }

  /** The next cell above `i` that is not below the pivot, or past the end. */
  method ScanUp<T(!new)>(a: array<T>, base: nat, i0: nat, hi: nat, cmp: (T, T) -> int) returns (i: nat)
    requires base <= i0 <= hi < a.Length
    ensures i0 < i <= hi + 1 && forall k :: i0 < k < i ==> cmp(a[k], a[base]) <= 0
    ensures i <= hi ==> cmp(a[i], a[base]) >= 0
  {
    i := i0 + 1;
    while i <= hi && cmp(a[i], a[base]) < 0
      invariant i0 < i <= hi + 1 && forall k :: i0 < k < i ==> cmp(a[k], a[base]) <= 0
    {
      i := i + 1;
    }
  }

  /** The next cell below `j` that is not above the pivot. The pivot itself is one. */
  method ScanDown<T(!new)>(a: array<T>, base: nat, j0: nat, cmp: (T, T) -> int) returns (j: nat)
    requires base < j0 <= a.Length && Orders(cmp)
    ensures base <= j < j0 && forall k :: j < k < j0 ==> cmp(a[base], a[k]) <= 0
    ensures cmp(a[j], a[base]) <= 0
  {
    j := j0 - 1;
    while cmp(a[j], a[base]) > 0
      invariant base <= j < j0 && forall k :: j < k < j0 ==> cmp(a[base], a[k]) <= 0
      decreases j
    {
      j := j - 1;
    }
  }

  lemma NotLess<T(!new)>(cmp: (T, T) -> int, x: T, y: T)
    requires Orders(cmp)
    ensures cmp(x, y) >= 0 <==> cmp(y, x) <= 0
  {
  }

  lemma SelfLe<T(!new)>(cmp: (T, T) -> int, x: T)
    requires Orders(cmp)
    ensures cmp(x, x) == 0
  {
  }

  // ---- insertion sort ----

  /** Sorted but for the element at `at`, which is no larger than any behind it. */
  ghost predicate AlmostSorted<T>(cmp: (T, T) -> int, s: seq<T>, at: nat) {
    && (forall i, j :: 0 <= i < j < |s| && j != at ==> cmp(s[i], s[j]) <= 0)
  }

  method InsertionSort<T(!new)>(a: array<T>, base: nat, n: nat, cmp: (T, T) -> int)
    requires base + n <= a.Length && Orders(cmp)
    modifies a
    ensures Rearranged(old(a[..]), a[..], base, base + n) && Sorted(cmp, a[base..base + n])
  {
    hide Rearranged, Sorted;
    ghost var s0 := a[..];
    RearrangedSelf(s0, base, base + n);
    var k := if n == 0 then 0 else 1;
    ShortSorted(cmp, a[base..base + k]);
    while k < n
      invariant k <= n && (n > 0 ==> k >= 1) && Rearranged(s0, a[..], base, base + n) && Sorted(cmp, a[base..base + k])
    {
      SinkOne(a, base, k, n, cmp, s0);
      k := k + 1;
    }
  }

  /** Move the element behind a sorted run down to its place in it. */
  method SinkOne<T(!new)>(a: array<T>, base: nat, k: nat, n: nat, cmp: (T, T) -> int, ghost s0: seq<T>)
    requires k < n && base + n <= a.Length == |s0| && Orders(cmp) && Sorted(cmp, a[base..base + k])
    requires Rearranged(s0, a[..], base, base + n)
    modifies a
    ensures Rearranged(s0, a[..], base, base + n) && Sorted(cmp, a[base..base + k + 1])
  {
    hide Rearranged, Orders, AlmostSorted, Sorted;
    var at := base + k;
    Opened(cmp, a[..][base..base + k], a[..][base..base + k + 1]);
    assert a[..][base..base + k] == a[base..base + k];
    while at > base && cmp(a[at - 1], a[at]) > 0
      invariant base <= at <= base + k && Rearranged(s0, a[..], base, base + n)
      invariant AlmostSorted(cmp, a[..][base..base + k + 1], at - base)
    {
      ghost var s := a[..];
      SwapCells(a, at - 1, at, s0, base, base + n);
      SunkIn(cmp, s, a[..], base, base + k + 1, at);
      at := at - 1;
    }
    assert a[..][base..base + k + 1] == a[base..base + k + 1];
    Placed(cmp, a[base..base + k + 1], at - base);
  }

  lemma ShortSorted<T>(cmp: (T, T) -> int, s: seq<T>)
    requires |s| <= 1
    ensures Sorted(cmp, s)
  {
  }

  lemma Opened<T>(cmp: (T, T) -> int, s: seq<T>, t: seq<T>)
    requires Sorted(cmp, s) && |t| == |s| + 1 && s == t[..|s|]
    ensures AlmostSorted(cmp, t, |s|)
  {
    assert forall i :: 0 <= i < |s| ==> t[i] == s[i];
  }

  lemma SunkIn<T(!new)>(cmp: (T, T) -> int, s: seq<T>, t: seq<T>, lo: nat, hi: nat, at: nat)
    requires Orders(cmp) && lo < at < hi <= |s| && AlmostSorted(cmp, s[lo..hi], at - lo) && cmp(s[at - 1], s[at]) > 0
    requires t == s[at - 1 := s[at]][at := s[at - 1]]
    ensures AlmostSorted(cmp, t[lo..hi], at - 1 - lo)
  {
    var u, v := s[lo..hi], t[lo..hi];
    forall i | 0 <= i < |u| && i != at - lo && i != at - lo - 1 ensures v[i] == u[i] {
      assert t[lo + i] == s[lo + i];
    }
    Sunk(cmp, u, v, at - lo);
  }

  lemma Sunk<T(!new)>(cmp: (T, T) -> int, s: seq<T>, t: seq<T>, at: nat)
    requires Orders(cmp) && 0 < at < |s| == |t| && AlmostSorted(cmp, s, at) && cmp(s[at - 1], s[at]) > 0
    requires t[at] == s[at - 1] && t[at - 1] == s[at] && forall i :: 0 <= i < |s| && i != at && i != at - 1 ==>
               t[i] == s[i]
    ensures AlmostSorted(cmp, t, at - 1)
  {
  }

  /** When the element is not smaller than the one before it, the whole run is sorted. */
  lemma Placed<T(!new)>(cmp: (T, T) -> int, s: seq<T>, at: nat)
    requires Orders(cmp) && at < |s| && AlmostSorted(cmp, s, at) && (at > 0 ==> cmp(s[at - 1], s[at]) <= 0)
    ensures Sorted(cmp, s)
  {
    forall i | 0 <= i < at ensures cmp(s[i], s[at]) <= 0 {
      if i < at - 1 {
        assert cmp(s[i], s[at - 1]) <= 0;
      }
    }
  }

  // ---- quicksort ----

  /** Where a run stands: parts finished at both ends, sorted, and around what is left. */
  ghost predicate Ends<T>(cmp: (T, T) -> int, s: seq<T>, lo: nat, b: nat, e: nat, hi: nat)
    requires lo <= b <= e <= hi <= |s|
  {
    && Sorted(cmp, s[lo..b]) && Sorted(cmp, s[e..hi])
    && Below(cmp, s[lo..b], s[b..e]) && Below(cmp, s[b..e], s[e..hi]) && Below(cmp, s[lo..b], s[e..hi])
  }

  /** Sort a run, with a budget for nested calls: each call passes on less than it has, so calls nest at
      most `budget` deep, and any budget that covers the logarithm of the length is enough. */
  method QuickSort<T(!new)>(a: array<T>, lo: nat, count: nat, cmp: (T, T) -> int, ghost budget: nat)
    requires lo + count <= a.Length && Orders(cmp) && count < Pow(2, budget + 1)
    modifies a
    ensures Rearranged(old(a[..]), a[..], lo, lo + count) && Sorted(cmp, a[lo..lo + count])
    decreases budget, 2
  {
    hide Rearranged, Sorted, Orders, Ends, Below, Pow;
    ghost var s0, hi := a[..], lo + count;
    var base, n := lo, count;
    RearrangedSelf(s0, lo, hi);
    NothingDone(cmp, s0, lo, hi);
    while n > 8
      invariant lo <= base && 0 <= n && base + n <= hi && n <= count && Rearranged(s0, a[..], lo, hi)
      invariant Ends(cmp, a[..], lo, base, base + n, hi)
      decreases n
    {
      ghost var s1 := a[..];
      base, n := PartAndRecurse(a, lo, base, n, hi, cmp, budget);
      RearrangedChain(s0, s1, a[..], lo, hi);
    }
    ghost var s3 := a[..];
    InsertionSort(a, base, n, cmp);
    RearrangedWider(s3, a[..], base, base + n, lo, hi);
    RearrangedChain(s0, s3, a[..], lo, hi);
    AllDone(cmp, s3, a[..], lo, base, base + n, hi);
  }

  /** Part what is left, sort the smaller side, and go on with the larger. */
  method PartAndRecurse<T(!new)>(a: array<T>, ghost lo: nat, base: nat, n: nat, ghost hi: nat, cmp: (T, T) -> int,
                                    ghost budget: nat)
    returns (base': nat, n': nat)
    requires lo <= base && base + n <= hi <= a.Length && 8 < n < Pow(2, budget + 1) && Orders(cmp)
    requires Ends(cmp, a[..], lo, base, base + n, hi)
    modifies a
    ensures lo <= base' && base' + n' <= hi && n' < n && Rearranged(old(a[..]), a[..], lo, hi)
    ensures Ends(cmp, a[..], lo, base', base' + n', hi)
    decreases budget, 1
  {
    hide Rearranged, Sorted, Orders, Ends, Below, Parted, Pow;
    ghost var s1 := a[..];
    var e := base + n;
    var j := Partition(a, base, n, cmp);
    ghost var s2 := a[..];
    RearrangedWider(s1, s2, base, e, lo, hi);
    EndsRearranged(cmp, s1, s2, lo, base, e, hi);
    var left := j - base;
    var right := n - left - 1;
    if left < right {
      DepthBound(budget, left, right, n);
      SortLeft(a, lo, base, j, e, hi, cmp, budget);
      base', n' := j + 1, right;
    } else {
      DepthBound(budget, right, left, n);
      SortRight(a, lo, base, j, e, hi, cmp, budget);
      base', n' := base, left;
    }
    RearrangedChain(s1, s2, a[..], lo, hi);
  }

  method SortLeft<T(!new)>(a: array<T>, ghost lo: nat, base: nat, j: nat, ghost e: nat, ghost hi: nat,
                           cmp: (T, T) -> int, ghost budget: nat)
    requires lo <= base <= j < e <= hi <= a.Length && budget > 0 && j - base < Pow(2, budget) && Orders(cmp)
    requires Ends(cmp, a[..], lo, base, e, hi) && Parted(cmp, a[..], base, j, e)
    modifies a
    ensures Rearranged(old(a[..]), a[..], lo, hi) && Ends(cmp, a[..], lo, j + 1, e, hi)
    decreases budget, 0
  {
    hide Rearranged, Sorted, Orders, Ends, Below, Parted, Pow;
    ghost var s := a[..];
    QuickSort(a, base, j - base, cmp, budget - 1);
    SliceOfArray(a, base, j);
    RearrangedWider(s, a[..], base, j, lo, hi);
    LeftDone(cmp, s, a[..], lo, base, j, e, hi);
  }

  method SortRight<T(!new)>(a: array<T>, ghost lo: nat, ghost base: nat, j: nat, e: nat, ghost hi: nat,
                            cmp: (T, T) -> int, ghost budget: nat)
    requires lo <= base <= j < e <= hi <= a.Length && budget > 0 && e - j - 1 < Pow(2, budget) && Orders(cmp)
    requires Ends(cmp, a[..], lo, base, e, hi) && Parted(cmp, a[..], base, j, e)
    modifies a
    ensures Rearranged(old(a[..]), a[..], lo, hi) && Ends(cmp, a[..], lo, base, j, hi)
    decreases budget, 0
  {
    hide Rearranged, Sorted, Orders, Ends, Below, Parted, Pow;
    ghost var s := a[..];
    QuickSort(a, j + 1, e - j - 1, cmp, budget - 1);
    SliceOfArray(a, j + 1, e);
    RearrangedWider(s, a[..], j + 1, e, lo, hi);
    RightDone(cmp, s, a[..], lo, base, j, e, hi);
  }

  lemma SliceOfArray<T>(a: array<T>, i: nat, j: nat)
    requires i <= j <= a.Length
    ensures a[..][i..j] == a[i..j]
  {
  }

  /** The smaller side is less than half, so one level less is enough for it. */
  lemma DepthBound(budget: nat, small: nat, large: nat, n: nat)
    requires small <= large && small + large + 1 == n && 8 < n < Pow(2, budget + 1)
    ensures budget > 0 && small < Pow(2, budget)
  {
    assert Pow(2, budget + 1) == 2 * Pow(2, budget) && Pow(2, 0) == 1;
  }

  /** The logarithm of a length, rounded down. */
  ghost function Levels(n: nat): (k: nat)
    ensures n < Pow(2, k + 1) && (n > 0 ==> Pow(2, k) <= n)
  {
    if n < 2 then
      assert Pow(2, 1) == 2 * Pow(2, 0);
      0
    else 1 + Levels(n / 2)
  }

  method QSort<T(!new)>(a: array<T>, nmemb: nat, cmp: (T, T) -> int)
    requires nmemb <= a.Length && Orders(cmp)
    modifies a
    ensures Sorted(cmp, a[..nmemb]) && multiset(a[..nmemb]) == multiset(old(a[..nmemb]))
    ensures a[nmemb..] == old(a[nmemb..])
  {
    if nmemb < 2 {
      return;
    }
    QuickSort(a, 0, nmemb, cmp, Levels(nmemb));
    assert a[0..nmemb] == a[..nmemb] && old(a[..])[0..nmemb] == old(a[..nmemb]);
  }

  lemma NothingDone<T>(cmp: (T, T) -> int, s: seq<T>, lo: nat, hi: nat)
    requires lo <= hi <= |s|
    ensures Ends(cmp, s, lo, lo, hi, hi)
  {
  }

  /** Rearranging what is left keeps both ends as they are. */
  lemma EndsRearranged<T>(cmp: (T, T) -> int, s: seq<T>, t: seq<T>, lo: nat, b: nat, e: nat, hi: nat)
    requires lo <= b <= e <= hi <= |s| && Rearranged(s, t, b, e) && Ends(cmp, s, lo, b, e, hi)
    ensures Ends(cmp, t, lo, b, e, hi)
  {
    Unchanged(s, t, b, e, lo, b);
    Unchanged(s, t, b, e, e, hi);
    BelowRearranged(cmp, s[b..e], t[b..e], s[lo..b]);
    BelowRearranged(cmp, s[b..e], t[b..e], s[e..hi]);
  }

  lemma BelowParts<T>(cmp: (T, T) -> int, s: seq<T>, t: seq<T>, u: seq<T>)
    ensures Below(cmp, s, t + u) <==> Below(cmp, s, t) && Below(cmp, s, u)
    ensures Below(cmp, t + u, s) <==> Below(cmp, t, s) && Below(cmp, u, s)
  {
    var v := t + u;
    assert forall i :: 0 <= i < |t| ==> v[i] == t[i];
    assert forall i :: 0 <= i < |u| ==> v[|t| + i] == u[i];
  }

  /** What the partition says, as parts: below the pivot, the pivot, above it. */
  lemma PivotParts<T(!new)>(cmp: (T, T) -> int, s: seq<T>, b: nat, j: nat, e: nat)
    requires b <= j < e <= |s| && Orders(cmp)
    requires Parted(cmp, s, b, j, e)
    ensures Below(cmp, s[b..j], [s[j]]) && Below(cmp, [s[j]], s[j + 1..e]) && Below(cmp, s[b..j], s[j + 1..e])
    ensures s[b..e] == s[b..j] + ([s[j]] + s[j + 1..e]) == (s[b..j] + [s[j]]) + s[j + 1..e]
  {
    var l, r := s[b..j], s[j + 1..e];
    forall x, y | 0 <= x < |l| && 0 <= y < |r| ensures cmp(l[x], r[y]) <= 0 {
      assert cmp(s[b + x], s[j]) <= 0 && cmp(s[j], s[j + 1 + y]) <= 0;
    }
  }

  /** The left part is sorted and, with the pivot, joins what is finished below. */
  lemma LeftDone<T(!new)>(cmp: (T, T) -> int, s: seq<T>, t: seq<T>, lo: nat, b: nat, j: nat, e: nat, hi: nat)
    requires lo <= b <= j < e <= hi <= |s| && Ends(cmp, s, lo, b, e, hi) && Rearranged(s, t, b, j) && Orders(cmp)
    requires Parted(cmp, s, b, j, e)
    requires Sorted(cmp, t[b..j])
    ensures Ends(cmp, t, lo, j + 1, e, hi)
  {
    var d, l, l', p, r, f := s[lo..b], s[b..j], t[b..j], [s[j]], s[j + 1..e], s[e..hi];
    PivotParts(cmp, s, b, j, e);
    Unchanged(s, t, b, j, lo, b);
    Unchanged(s, t, b, j, j, j + 1);
    Unchanged(s, t, b, j, j + 1, e);
    Unchanged(s, t, b, j, e, hi);
    Joined(t, lo, b, j, j + 1);
    assert s[j..j + 1] == p;
    hide Sorted, Below, Orders, Rearranged, Parted;
    assert t[lo..j + 1] == (d + l') + p;
    LeftParts(cmp, d, l, l', p, r, f);
  }

  lemma LeftParts<T(!new)>(cmp: (T, T) -> int, d: seq<T>, l: seq<T>, l': seq<T>, p: seq<T>, r: seq<T>, f: seq<T>)
    requires Sorted(cmp, d) && Sorted(cmp, l') && |p| == 1 && multiset(l) == multiset(l')
    requires Below(cmp, d, l + (p + r)) && Below(cmp, l + (p + r), f) && Below(cmp, d, f)
    requires Below(cmp, l, p) && Below(cmp, p, r) && Below(cmp, l, r)
    ensures Sorted(cmp, (d + l') + p) && Below(cmp, (d + l') + p, r) && Below(cmp, r, f) && Below(cmp, (d + l') + p, f)
  {
    hide Sorted, Below, Orders;
    BelowParts(cmp, d, l, p + r);
    BelowParts(cmp, d, p, r);
    BelowParts(cmp, f, l, p + r);
    BelowParts(cmp, f, p, r);
    BelowRearranged(cmp, l, l', d);
    BelowRearranged(cmp, l, l', p);
    BelowRearranged(cmp, l, l', r);
    BelowRearranged(cmp, l, l', f);
    BelowParts(cmp, p, d, l');
    BelowParts(cmp, r, d, l');
    BelowParts(cmp, r, d + l', p);
    BelowParts(cmp, f, d, l');
    BelowParts(cmp, f, d + l', p);
    ShortSorted(cmp, p);
    SortedJoin(cmp, d, l');
    SortedJoin(cmp, d + l', p);
  }

  lemma RightDone<T(!new)>(cmp: (T, T) -> int, s: seq<T>, t: seq<T>, lo: nat, b: nat, j: nat, e: nat, hi: nat)
    requires lo <= b <= j < e <= hi <= |s| && Ends(cmp, s, lo, b, e, hi) && Rearranged(s, t, j + 1, e) && Orders(cmp)
    requires Parted(cmp, s, b, j, e)
    requires Sorted(cmp, t[j + 1..e])
    ensures Ends(cmp, t, lo, b, j, hi)
  {
    var d, l, p, r, r', f := s[lo..b], s[b..j], [s[j]], s[j + 1..e], t[j + 1..e], s[e..hi];
    PivotParts(cmp, s, b, j, e);
    RightSlices(s, t, lo, b, j, e, hi);
    hide Sorted, Below, Orders, Rearranged, Parted;
    RightParts(cmp, d, l, p, r, r', f);
  }

  lemma RightSlices<T>(s: seq<T>, t: seq<T>, lo: nat, b: nat, j: nat, e: nat, hi: nat)
    requires lo <= b <= j < e <= hi <= |s| && Rearranged(s, t, j + 1, e)
    ensures t[lo..b] == s[lo..b] && t[b..j] == s[b..j] && t[j..hi] == [s[j]] + (t[j + 1..e] + s[e..hi])
    ensures multiset(s[j + 1..e]) == multiset(t[j + 1..e])
  {
    Unchanged(s, t, j + 1, e, lo, b);
    Unchanged(s, t, j + 1, e, b, j);
    Unchanged(s, t, j + 1, e, j, j + 1);
    Unchanged(s, t, j + 1, e, e, hi);
    Joined(t, j, j + 1, e, hi);
    assert s[j..j + 1] == [s[j]];
  }

  lemma RightParts<T(!new)>(cmp: (T, T) -> int, d: seq<T>, l: seq<T>, p: seq<T>, r: seq<T>, r': seq<T>, f: seq<T>)
    requires Sorted(cmp, f) && Sorted(cmp, r') && |p| == 1 && multiset(r) == multiset(r')
    requires Below(cmp, d, l + (p + r)) && Below(cmp, l + (p + r), f) && Below(cmp, d, f)
    requires Below(cmp, l, p) && Below(cmp, p, r) && Below(cmp, l, r)
    ensures Sorted(cmp, p + (r' + f)) && Below(cmp, d, l) && Below(cmp, l, p + (r' + f)) && Below(cmp, d, p + (r' + f))
  {
    hide Sorted, Below, Orders;
    BelowParts(cmp, d, l, p + r);
    BelowParts(cmp, d, p, r);
    BelowParts(cmp, f, l, p + r);
    BelowParts(cmp, f, p, r);
    BelowRearranged(cmp, r, r', d);
    BelowRearranged(cmp, r, r', l);
    BelowRearranged(cmp, r, r', p);
    BelowRearranged(cmp, r, r', f);
    BelowParts(cmp, p, r', f);
    BelowParts(cmp, l, r', f);
    BelowParts(cmp, l, p, r' + f);
    BelowParts(cmp, d, r', f);
    BelowParts(cmp, d, p, r' + f);
    ShortSorted(cmp, p);
    SortedJoin(cmp, r', f);
    SortedJoin(cmp, p, r' + f);
  }

  lemma Joined<T>(s: seq<T>, i: nat, j: nat, k: nat, m: nat)
    requires i <= j <= k <= m <= |s|
    ensures s[i..m] == (s[i..j] + s[j..k]) + s[k..m] == s[i..j] + (s[j..k] + s[k..m])
  {
  }

  /** Parts outside the rearranged one are the same. */
  lemma Unchanged<T>(s: seq<T>, t: seq<T>, lo: nat, hi: nat, i: nat, j: nat)
    requires lo <= hi <= |s| && Rearranged(s, t, lo, hi) && i <= j <= |s| && (j <= lo || hi <= i)
    ensures t[i..j] == s[i..j]
  {
    forall k | i <= k < j ensures t[k] == s[k] {
      if j <= lo {
        assert t[k] == t[..lo][k] && s[k] == s[..lo][k];
      } else {
        assert t[k] == t[hi..][k - hi] && s[k] == s[hi..][k - hi];
      }
    }
  }

  lemma AllDone<T>(cmp: (T, T) -> int, s: seq<T>, t: seq<T>, lo: nat, b: nat, e: nat, hi: nat)
    requires lo <= b <= e <= hi <= |s| && Ends(cmp, s, lo, b, e, hi) && Rearranged(s, t, b, e) && Sorted(cmp, t[b..e])
    ensures Sorted(cmp, t[lo..hi])
  {
    EndsRearranged(cmp, s, t, lo, b, e, hi);
    SortedJoin(cmp, t[lo..b], t[b..e]);
    assert t[lo..b] + t[b..e] == t[lo..e];
    assert t[lo..e] + t[e..hi] == t[lo..hi];
    SortedJoin(cmp, t[lo..e], t[e..hi]);
  }
}
