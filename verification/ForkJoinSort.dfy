/** The three sorts over slices of an array. A slice is the range [lo, hi) of the array; the two
  * goroutines of a fork run in either order, and each touches only its own slice. */
module ForkJoinSort {

  const THRESHOLD := 100

  ghost predicate Sorted(s: seq<int>) {
    forall i, j :: 0 <= i < j < |s| ==> s[i] <= s[j]
  }

  /** `r` is a sorted permutation of `s`. */
  ghost predicate IsSortOf(r: seq<int>, s: seq<int>) {
    Sorted(r) && multiset(r) == multiset(s)
  }

  /** The head of a sorted permutation is the least element of the input. */
  lemma HeadOfSort(r: seq<int>, s: seq<int>)
    requires IsSortOf(r, s) && r != []
    ensures r[0] in s && forall x :: x in s ==> r[0] <= x
  {
    assert r[0] in multiset(s);
    forall x | x in s
      ensures r[0] <= x
    {
      assert x in multiset(r);
      assert x in r;
    }
  }

  lemma TailsAgree(x: int, t: seq<int>, t': seq<int>)
    requires multiset([x] + t) == multiset([x] + t')
    ensures multiset(t) == multiset(t')
  {
    assert multiset([x] + t) == multiset{x} + multiset(t);
    assert multiset([x] + t') == multiset{x} + multiset(t');
    assert multiset(t) == multiset{x} + multiset(t) - multiset{x};
    assert multiset(t') == multiset{x} + multiset(t') - multiset{x};
  }

  /** There is only one sorted permutation, so all three sorts compute the same. */
  lemma {:induction false} SortIsUnique(r: seq<int>, r': seq<int>, s: seq<int>)
    requires IsSortOf(r, s) && IsSortOf(r', s)
    ensures r == r'
    decreases |r|
  {
    assert |r| == |multiset(s)| == |r'|;
    if r != [] {
      HeadOfSort(r, s);
      HeadOfSort(r', s);
      assert r == [r[0]] + r[1..] && r' == [r[0]] + r'[1..];
      TailsAgree(r[0], r[1..], r'[1..]);
      SortIsUnique(r[1..], r'[1..], r[1..]);
    }
  }

  /** Only the slice [lo, hi) of the array has changed. */
  twostate predicate OnlySlice(a: array<int>, lo: int, hi: int)
    requires 0 <= lo <= hi <= a.Length
    reads a
  {
    forall k :: 0 <= k < a.Length && !(lo <= k < hi) ==> a[k] == old(a[k])
  }

  method Swap(a: array<int>, lo: nat, hi: nat, i: nat, j: nat)
    requires lo <= i < hi <= a.Length && lo <= j < hi
    modifies a
    ensures a[i] == old(a[j]) && a[j] == old(a[i])
    ensures forall k :: 0 <= k < a.Length && k != i && k != j ==> a[k] == old(a[k])
    ensures multiset(a[lo..hi]) == multiset(old(a[lo..hi])) && OnlySlice(a, lo, hi)
  {
    a[i], a[j] := a[j], a[i];
    ghost var s := old(a[lo..hi]);
    assert a[lo..hi] == s[i - lo := s[j - lo]][j - lo := s[i - lo]];
  }

  /** ordinary_sort: selection sort */
  method OrdinarySort(a: array<int>, lo: nat, hi: nat)
    requires lo <= hi <= a.Length
    modifies a
    ensures IsSortOf(a[lo..hi], old(a[lo..hi])) && OnlySlice(a, lo, hi)
  {
    for i := lo to hi
      invariant multiset(a[lo..hi]) == multiset(old(a[lo..hi])) && OnlySlice(a, lo, hi)
      invariant forall k, l :: lo <= k < i && k < l < hi ==> a[k] <= a[l]
    {
      var minPos, minItem := i, a[i];
      for j := i + 1 to hi
        invariant i <= minPos < j && minItem == a[minPos]
        invariant forall k :: i <= k < j ==> minItem <= a[k]
      {
        if a[j] < minItem {
          minPos, minItem := j, a[j];
        }
      }
      Swap(a, lo, hi, i, minPos);
    }
  }

  // ----- quick sort -----

  /** Everything before `p` is below the pivot at `p`, and nothing behind it is. */
  ghost predicate Partitioned(s: seq<int>, p: int) {
    0 <= p < |s| && (forall k :: 0 <= k < p ==> s[k] < s[p]) && (forall k :: p < k < |s| ==> s[p] <= s[k])
  }

  /** The partition of quick_sort around the element at `pivot`. */
  method Partition(a: array<int>, lo: nat, hi: nat, pivot: nat) returns (p: nat)
    requires lo <= pivot < hi <= a.Length
    modifies a
    ensures lo <= p < hi && Partitioned(a[lo..hi], p - lo)
    ensures multiset(a[lo..hi]) == multiset(old(a[lo..hi])) && OnlySlice(a, lo, hi)
  {
    var last := hi - 1;
    Swap(a, lo, hi, last, pivot);
    p := lo;
    for i := lo to hi
      invariant lo <= p <= i && p <= last
      invariant i == hi ==> p <= last
      invariant multiset(a[lo..hi]) == multiset(old(a[lo..hi])) && OnlySlice(a, lo, hi)
      invariant forall k :: lo <= k < p ==> a[k] < a[last]
      invariant forall k :: p <= k < i ==> a[last] <= a[k]
    {
      if a[i] < a[last] {
        Swap(a, lo, hi, p, i);
        p := p + 1;
      }
    }
    Swap(a, lo, hi, p, last);
  }

  /** Sorting the two sides of a partition sorts the whole. */
  lemma PartitionSorted(s: seq<int>, p: nat, t: seq<int>)
    requires Partitioned(s, p) && |t| == |s| && t[p] == s[p]
    requires IsSortOf(t[..p], s[..p]) && IsSortOf(t[p + 1..], s[p + 1..])
    ensures IsSortOf(t, s)
  {
    assert s == s[..p] + [s[p]] + s[p + 1..] && t == t[..p] + [t[p]] + t[p + 1..];
    forall k | 0 <= k < p
      ensures t[k] < t[p]
    {
      assert t[k] in multiset(t[..p]) && t[k] in multiset(s[..p]);
      assert t[k] in s[..p];
    }
    forall k | p < k < |t|
      ensures t[p] <= t[k]
    {
      assert t[p + 1..][k - p - 1] == t[k];
      assert t[k] in multiset(t[p + 1..]) && t[k] in multiset(s[p + 1..]);
      assert t[k] in s[p + 1..];
    }
    forall i, j | 0 <= i < j < |t|
      ensures t[i] <= t[j]
    {
      if j < p { assert t[..p][i] <= t[..p][j]; }
      if p < i { assert t[p + 1..][i - p - 1] <= t[p + 1..][j - p - 1]; }
    }
  }

  lemma SubSlices(a: array<int>, lo: nat, p: nat, hi: nat)
    requires lo <= p < hi <= a.Length
    ensures a[lo..hi][..p - lo] == a[lo..p] && a[lo..hi][p - lo + 1..] == a[p + 1..hi]
  {
  }

  /** quick_sort, with any choice of pivots */
  method QuickSort(a: array<int>, lo: nat, hi: nat)
    requires lo <= hi <= a.Length
    modifies a
    ensures IsSortOf(a[lo..hi], old(a[lo..hi])) && OnlySlice(a, lo, hi)
    decreases hi - lo, 2
  {
    if hi - lo <= THRESHOLD {
      OrdinarySort(a, lo, hi);
      return;
    }
    var pivot: nat :| lo <= pivot < hi;      // rand.Intn
    var p := Partition(a, lo, hi, pivot);
    ghost var s := a[lo..hi];
    SubSlices(a, lo, p, hi);
    QuickSortSides(a, lo, p, hi);
    SubSlices(a, lo, p, hi);
    PartitionSorted(s, p - lo, a[lo..hi]);
  }

  /** The two goroutines, in either order. */
  method QuickSortSides(a: array<int>, lo: nat, p: nat, hi: nat)
    requires lo <= p < hi <= a.Length
    modifies a
    ensures IsSortOf(a[lo..p], old(a[lo..p])) && IsSortOf(a[p + 1..hi], old(a[p + 1..hi]))
    ensures a[p] == old(a[p]) && OnlySlice(a, lo, hi)
    decreases hi - lo, 1
  {
    if * {
      QuickSortBoth(a, lo, p, p + 1, hi);
    } else {
      QuickSortBoth(a, p + 1, hi, lo, p);
    }
  }

  /** One slice after the other */
  method QuickSortBoth(a: array<int>, lo: nat, hi: nat, lo': nat, hi': nat)
    requires lo <= hi <= a.Length && lo' <= hi' <= a.Length && (hi <= lo' || hi' <= lo)
    modifies a
    ensures IsSortOf(a[lo..hi], old(a[lo..hi])) && IsSortOf(a[lo'..hi'], old(a[lo'..hi']))
    ensures forall k :: 0 <= k < a.Length && !(lo <= k < hi) && !(lo' <= k < hi') ==> a[k] == old(a[k])
    decreases hi - lo + hi' - lo' + 1, 0
  {
    ghost var second := a[lo'..hi'];
    QuickSort(a, lo, hi);
    assert a[lo'..hi'] == second;
    ghost var first := a[lo..hi];
    QuickSort(a, lo', hi');
    assert a[lo..hi] == first;
  }

  // ----- merge sort -----

  /** The two sorted halves merged; of equal elements the one from the right half comes first. */
  function Merged(l: seq<int>, r: seq<int>): seq<int>
    decreases |l| + |r|
  {
    if l == [] then r
    else if r == [] then l
    else if l[0] < r[0] then [l[0]] + Merged(l[1..], r)
    else [r[0]] + Merged(l, r[1..])
  }

  lemma {:induction false} MergedHolds(l: seq<int>, r: seq<int>)
    ensures multiset(Merged(l, r)) == multiset(l) + multiset(r)
    decreases |l| + |r|
  {
    if l != [] && r != [] {
      assert l == [l[0]] + l[1..] && r == [r[0]] + r[1..];
      if l[0] < r[0] { MergedHolds(l[1..], r); } else { MergedHolds(l, r[1..]); }
    }
  }

  /** Elements of the merge come from one of the halves, so a lower bound of both is one of it. */
  lemma MergedAbove(x: int, l: seq<int>, r: seq<int>)
    requires (forall y :: y in l ==> x <= y) && forall y :: y in r ==> x <= y
    ensures forall y :: y in Merged(l, r) ==> x <= y
  {
    MergedHolds(l, r);
    forall y | y in Merged(l, r)
      ensures x <= y
    {
      assert y in multiset(Merged(l, r));
      assert y in multiset(l) + multiset(r);
      assert y in l || y in r;
    }
  }

  /** The head of a sorted sequence is a lower bound, and its tail is sorted. */
  lemma HeadLeast(s: seq<int>)
    requires Sorted(s) && s != []
    ensures Sorted(s[1..]) && (forall y :: y in s ==> s[0] <= y) && forall y :: y in s[1..] ==> s[0] <= y
  {
  }

  lemma {:induction false} MergedSorts(l: seq<int>, r: seq<int>)
    requires Sorted(l) && Sorted(r)
    ensures Sorted(Merged(l, r))
    decreases |l| + |r|
  {
    if l != [] && r != [] {
      HeadLeast(l);
      HeadLeast(r);
      if l[0] < r[0] {
        MergedSorts(l[1..], r);
        MergedAbove(l[0], l[1..], r);
        HeadFirst(l[0], Merged(l[1..], r));
      } else {
        MergedSorts(l, r[1..]);
        MergedAbove(r[0], l, r[1..]);
        HeadFirst(r[0], Merged(l, r[1..]));
      }
    }
  }

  lemma HeadFirst(x: int, s: seq<int>)
    requires Sorted(s) && forall y :: y in s ==> x <= y
    ensures Sorted([x] + s)
  {
    assert forall i :: 0 <= i < |s| ==> s[i] in s;
  }

  /** The first loop of the merge takes the smaller head until one half is used up. */
  method MergeHeads(a: array<int>, lo: nat, mid: nat, hi: nat) returns (result: seq<int>, lo1: nat, lo2: nat)
    requires lo <= mid <= hi <= a.Length
    ensures lo <= lo1 <= mid <= lo2 <= hi && (lo1 == mid || lo2 == hi)
    ensures result + Merged(a[lo1..mid], a[lo2..hi]) == Merged(a[lo..mid], a[mid..hi])
  {
    result, lo1, lo2 := [], lo, mid;
    while lo1 < mid && lo2 < hi
      invariant lo <= lo1 <= mid <= lo2 <= hi
      invariant result + Merged(a[lo1..mid], a[lo2..hi]) == Merged(a[lo..mid], a[mid..hi])
    {
      MergedStep(a, result, lo1, mid, lo2, hi);
      if a[lo1] < a[lo2] {
        result, lo1 := result + [a[lo1]], lo1 + 1;
      } else {
        result, lo2 := result + [a[lo2]], lo2 + 1;
      }
    }
  }

  lemma MergedStep(a: array<int>, done: seq<int>, lo1: nat, hi1: nat, lo2: nat, hi2: nat)
    requires lo1 < hi1 <= a.Length && lo2 < hi2 <= a.Length
    ensures done + Merged(a[lo1..hi1], a[lo2..hi2]) ==
      if a[lo1] < a[lo2] then done + [a[lo1]] + Merged(a[lo1 + 1..hi1], a[lo2..hi2])
      else done + [a[lo2]] + Merged(a[lo1..hi1], a[lo2 + 1..hi2])
  {
    assert a[lo1..hi1][1..] == a[lo1 + 1..hi1] && a[lo2..hi2][1..] == a[lo2 + 1..hi2];
  }

  /** The merge loops of merge_sort: the two halves into a new slice. */
  method MergeOut(a: array<int>, lo: nat, mid: nat, hi: nat) returns (result: seq<int>)
    requires lo <= mid <= hi <= a.Length
    ensures result == Merged(a[lo..mid], a[mid..hi])
  {
    var lo1, lo2;
    result, lo1, lo2 := MergeHeads(a, lo, mid, hi);
    if lo2 < hi {
      result := Drain(a, lo2, hi, result);
    } else {
      result := Drain(a, lo1, mid, result);
    }
  }

  /** The loop that appends what is left of one half. */
  method Drain(a: array<int>, lo: nat, hi: nat, done: seq<int>) returns (result: seq<int>)
    requires lo <= hi <= a.Length
    ensures result == done + a[lo..hi]
  {
    result := done;
    for i := lo to hi
      invariant result == done + a[lo..i]
    {
      result := result + [a[i]];
    }
  }

  /** The copy back of merge_sort */
  method CopyBack(a: array<int>, lo: nat, hi: nat, result: seq<int>)
    requires lo <= hi <= a.Length && |result| == hi - lo
    modifies a
    ensures a[lo..hi] == result && OnlySlice(a, lo, hi)
  {
    for i := 0 to hi - lo
      invariant OnlySlice(a, lo, hi)
      invariant forall k :: 0 <= k < i ==> a[lo + k] == result[k]
    {
      a[lo + i] := result[i];
    }
  }

  /** The merge of merge_sort */
  method Merge(a: array<int>, lo: nat, mid: nat, hi: nat)
    requires lo <= mid <= hi <= a.Length
    modifies a
    ensures a[lo..hi] == Merged(old(a[lo..mid]), old(a[mid..hi])) && OnlySlice(a, lo, hi)
  {
    var result := MergeOut(a, lo, mid, hi);
    MergedLength(a[lo..mid], a[mid..hi]);
    CopyBack(a, lo, hi, result);
  }

  lemma {:induction false} MergedLength(l: seq<int>, r: seq<int>)
    ensures |Merged(l, r)| == |l| + |r|
    decreases |l| + |r|
  {
    if l != [] && r != [] {
      if l[0] < r[0] { MergedLength(l[1..], r); } else { MergedLength(l, r[1..]); }
    }
  }

  /** merge_sort */
  method MergeSort(a: array<int>, lo: nat, hi: nat)
    requires lo <= hi <= a.Length
    modifies a
    ensures IsSortOf(a[lo..hi], old(a[lo..hi])) && OnlySlice(a, lo, hi)
    decreases hi - lo, 2
  {
    if hi - lo <= THRESHOLD {
      OrdinarySort(a, lo, hi);
      return;
    }
    var mid := lo + (hi - lo) / 2;
    assert a[lo..hi] == a[lo..mid] + a[mid..hi];
    MergeSortHalves(a, lo, mid, hi);
    MergedSorts(a[lo..mid], a[mid..hi]);
    MergedHolds(a[lo..mid], a[mid..hi]);
    assert a[lo..hi] == a[lo..mid] + a[mid..hi];
    Merge(a, lo, mid, hi);
  }

  /** The two goroutines, in either order. */
  method MergeSortHalves(a: array<int>, lo: nat, mid: nat, hi: nat)
    requires lo < mid < hi <= a.Length
    modifies a
    ensures IsSortOf(a[lo..mid], old(a[lo..mid])) && IsSortOf(a[mid..hi], old(a[mid..hi]))
    ensures OnlySlice(a, lo, hi)
    decreases hi - lo, 1
  {
    if * {
      MergeSortBoth(a, lo, mid, mid, hi);
    } else {
      MergeSortBoth(a, mid, hi, lo, mid);
    }
  }

  /** One slice after the other */
  method MergeSortBoth(a: array<int>, lo: nat, hi: nat, lo': nat, hi': nat)
    requires lo < hi <= a.Length && lo' < hi' <= a.Length && (hi <= lo' || hi' <= lo)
    modifies a
    ensures IsSortOf(a[lo..hi], old(a[lo..hi])) && IsSortOf(a[lo'..hi'], old(a[lo'..hi']))
    ensures forall k :: 0 <= k < a.Length && !(lo <= k < hi) && !(lo' <= k < hi') ==> a[k] == old(a[k])
    decreases hi - lo + hi' - lo', 0
  {
    ghost var second := a[lo'..hi'];
    MergeSort(a, lo, hi);
    assert a[lo'..hi'] == second;
    ghost var first := a[lo..hi];
    MergeSort(a, lo', hi');
    assert a[lo..hi] == first;
  }
}
