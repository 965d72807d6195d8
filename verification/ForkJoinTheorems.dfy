/** Under every scheduler and with all pivots the sorts end with the sorted slice. */
module ForkJoinTheorems {
  import opened Goroutines
  import opened ForkJoinSort
  import opened ForkJoinPrograms

  function Exchanged(a: seq<int>, x: nat, y: nat): seq<int>
    requires x < |a| && y < |a|
  {
    a[x := a[y]][y := a[x]]
  }

  lemma ExchangedHolds(a: seq<int>, x: nat, y: nat)
    requires x < |a| && y < |a|
    ensures multiset(Exchanged(a, x, y)) == multiset(a)
  {
  }

  lemma {:induction false} ExchangeEnds(x: nat, y: nat, k: Program, a: seq<int>, goal: seq<int>)
    requires x < |a| && y < |a| && Ends(k, Exchanged(a, x, y), goal)
    ensures Ends(Exchange(x, y, k), a, goal)
  {
    var vy, vx := a[y], a[x];
    WriteEnds(y, vx, k, a[x := vy], goal);
    WriteEnds(x, vy, Write(y, vx, k), a, goal);
    ReadEnds(x, v => Write(x, vy, Write(y, v, k)), a, goal);
    ReadEnds(y, w => Read(x, v => Write(x, w, Write(y, v, k))), a, goal);
  }

  // ----- ordinary_sort -----

  /** The first `i` elements are sorted and none of them is larger than a later one. */
  ghost predicate SortedTo(a: seq<int>, i: nat) {
    forall x, y :: 0 <= x < i && x < y < |a| ==> a[x] <= a[y]
  }

  lemma {:induction false} SelectionEnds(n: nat, i: nat, k: Program, a: seq<int>, r: seq<int>, goal: seq<int>)
    requires |a| == n && i <= n && SortedTo(a, i) && IsSortOf(r, a) && Ends(k, r, goal)
    ensures Ends(Selection(n, i, k), a, goal)
    decreases n - i, n + 1
  {
    if i == n {
      SortIsUnique(a, r, a);
    } else {
      MinimumEnds(n, i, i + 1, i, a[i], k, a, r, goal);
      ReadEnds(i, v => Minimum(n, i, i + 1, i, v, k), a, goal);
    }
  }

  lemma {:induction false} MinimumEnds(n: nat, i: nat, j: nat, minPos: nat, minItem: int, k: Program,
                                       a: seq<int>, r: seq<int>, goal: seq<int>)
    requires |a| == n && i < j <= n && SortedTo(a, i) && IsSortOf(r, a) && Ends(k, r, goal)
    requires i <= minPos < j && minItem == a[minPos] && forall x :: i <= x < j ==> minItem <= a[x]
    ensures Ends(Minimum(n, i, j, minPos, minItem, k), a, goal)
    decreases n - i, n - j
  {
    if j == n {
      var b := Exchanged(a, i, minPos);
      ExchangedHolds(a, i, minPos);
      SelectionEnds(n, i + 1, k, b, r, goal);
      ExchangeEnds(i, minPos, Selection(n, i + 1, k), a, goal);
    } else {
      var v := a[j];
      if v < minItem {
        MinimumEnds(n, i, j + 1, j, v, k, a, r, goal);
        ReadEnds(j, w => Minimum(n, i, j + 1, j, w, k), a, goal);
      } else {
        MinimumEnds(n, i, j + 1, minPos, minItem, k, a, r, goal);
      }
      ReadEnds(j, v =>
        if v < minItem then Read(j, w => Minimum(n, i, j + 1, j, w, k))
        else Minimum(n, i, j + 1, minPos, minItem, k), a, goal);
    }
  }

  /** Every slice has a sorted permutation. */
  lemma {:induction false} SortExists(s: seq<int>) returns (r: seq<int>)
    ensures IsSortOf(r, s) && |r| == |s|
  {
    if s == [] {
      r := [];
    } else {
      var t := SortExists(s[1..]);
      r := InsertSorted(s[0], t);
      assert s == [s[0]] + s[1..];
    }
    assert |multiset(r)| == |multiset(s)|;
  }

  lemma {:induction false} InsertSorted(x: int, t: seq<int>) returns (r: seq<int>)
    requires Sorted(t)
    ensures Sorted(r) && multiset(r) == multiset(t) + multiset{x}
  {
    if t == [] || x <= t[0] {
      r := [x] + t;
    } else {
      assert t == [t[0]] + t[1..];
      var u := InsertSorted(x, t[1..]);
      r := [t[0]] + u;
      forall y | y in u
        ensures t[0] <= y
      {
        assert y in multiset(u);
        assert y in t[1..] || y == x;
      }
      HeadFirst(t[0], u);
    }
  }

  // ----- quick_sort -----

  lemma {:induction false} QuickEnds(n: nat, k: Program, a: seq<int>, r: seq<int>, goal: seq<int>)
    requires |a| == n && IsSortOf(r, a) && Ends(k, r, goal)
    ensures Ends(Quick(n, k), a, goal)
    decreases n, n + 4
  {
    if n <= THRESHOLD {
      SelectionEnds(n, 0, k, a, r, goal);
    } else {
      var cont := pivot => Exchange(n - 1, pivot, Partitioning(n, 0, 0, k));
      forall pivot: int | 0 <= pivot < n
        ensures Ends(cont(pivot), a, goal)
      {
        PivotEnds(n, pivot, k, a, r, goal);
      }
      ChooseEnds(n, cont, a, goal);
    }
  }

  lemma {:induction false} PivotEnds(n: nat, pivot: nat, k: Program, a: seq<int>, r: seq<int>, goal: seq<int>)
    requires pivot < n == |a| && IsSortOf(r, a) && Ends(k, r, goal)
    ensures Ends(Exchange(n - 1, pivot, Partitioning(n, 0, 0, k)), a, goal)
    decreases n, n + 3
  {
    ExchangedHolds(a, n - 1, pivot);
    PartitioningEnds(n, 0, 0, k, Exchanged(a, n - 1, pivot), r, goal);
    ExchangeEnds(n - 1, pivot, Partitioning(n, 0, 0, k), a, goal);
  }

  /** The partition loop has sent the elements before `i` to their sides; the pivot is the last element. */
  ghost predicate PartitionedTo(a: seq<int>, i: nat, lo: nat) {
    && lo <= i <= |a| && lo < |a|
    && (forall x :: 0 <= x < lo ==> a[x] < a[|a| - 1])
    && (forall x :: lo <= x < i ==> a[|a| - 1] <= a[x])
  }

  lemma {:induction false} PartitioningEnds(n: nat, i: nat, lo: nat, k: Program, a: seq<int>, r: seq<int>, goal: seq<int>)
    requires |a| == n > 0 && i <= n && PartitionedTo(a, i, lo) && IsSortOf(r, a) && Ends(k, r, goal)
    ensures Ends(Partitioning(n, i, lo, k), a, goal)
    decreases n, n - i + 2
  {
    if i == n {
      PartitioningDone(n, lo, k, a, r, goal);
    } else {
      PartitionTurn(a, i, lo);
      if a[i] < a[n - 1] {
        ExchangedHolds(a, lo, i);
        PartitioningEnds(n, i + 1, lo + 1, k, Exchanged(a, lo, i), r, goal);
        ExchangeEnds(lo, i, Partitioning(n, i + 1, lo + 1, k), a, goal);
      } else {
        PartitioningEnds(n, i + 1, lo, k, a, r, goal);
      }
      PartitioningReads(n, i, lo, k, a, goal);
    }
  }

  lemma {:induction false} PartitioningDone(n: nat, lo: nat, k: Program, a: seq<int>, r: seq<int>, goal: seq<int>)
    requires |a| == n > 0 && PartitionedTo(a, n, lo) && IsSortOf(r, a) && Ends(k, r, goal)
    ensures Ends(Partitioning(n, n, lo, k), a, goal)
    decreases n, 1
  {
    PivotInPlace(a, lo, r);
    SidesEnd(n, lo, k, Exchanged(a, lo, n - 1), r, goal);
    PivotExchanged(n, lo, k, a, goal);
  }

  lemma {:induction false} PivotExchanged(n: nat, lo: nat, k: Program, a: seq<int>, goal: seq<int>)
    requires lo < n == |a|
    requires Ends(Fork(lo, Quick(lo, Done), lo + 1, Quick(n - lo - 1, Done), k), Exchanged(a, lo, n - 1), goal)
    ensures Ends(Partitioning(n, n, lo, k), a, goal)
  {
    ExchangeEnds(lo, n - 1, Fork(lo, Quick(lo, Done), lo + 1, Quick(n - lo - 1, Done), k), a, goal);
  }

  lemma PivotInPlace(a: seq<int>, lo: nat, r: seq<int>)
    requires PartitionedTo(a, |a|, lo) && IsSortOf(r, a)
    ensures var b := Exchanged(a, lo, |a| - 1); |b| == |a| && Partitioned(b, lo) && IsSortOf(r, b)
  {
    ExchangedHolds(a, lo, |a| - 1);
  }

  lemma PartitionTurn(a: seq<int>, i: nat, lo: nat)
    requires i < |a| && PartitionedTo(a, i, lo)
    ensures a[i] < a[|a| - 1] ==> PartitionedTo(Exchanged(a, lo, i), i + 1, lo + 1)
    ensures a[i] >= a[|a| - 1] ==> PartitionedTo(a, i + 1, lo)
  {
  }

  /** The two reads of a comparison, and the branch that follows. */
  lemma {:induction false} PartitioningReads(n: nat, i: nat, lo: nat, k: Program, a: seq<int>, goal: seq<int>)
    requires i < n == |a|
    requires a[i] < a[n - 1] ==> Ends(Exchange(lo, i, Partitioning(n, i + 1, lo + 1, k)), a, goal)
    requires a[i] >= a[n - 1] ==> Ends(Partitioning(n, i + 1, lo, k), a, goal)
    ensures Ends(Partitioning(n, i, lo, k), a, goal)
  {
    var v := a[i];
    ReadEnds(n - 1, w =>
      if v < w then Exchange(lo, i, Partitioning(n, i + 1, lo + 1, k)) else Partitioning(n, i + 1, lo, k), a, goal);
    ReadEnds(i, v => Read(n - 1, w =>
      if v < w then Exchange(lo, i, Partitioning(n, i + 1, lo + 1, k)) else Partitioning(n, i + 1, lo, k)), a, goal);
  }

  /** The two goroutines sort the sides of the partition, however their steps are interleaved. */
  lemma {:induction false} SidesEnd(n: nat, p: nat, k: Program, a: seq<int>, r: seq<int>, goal: seq<int>)
    requires |a| == n && p < n && Partitioned(a, p) && IsSortOf(r, a) && Ends(k, r, goal)
    ensures Ends(Fork(p, Quick(p, Done), p + 1, Quick(n - p - 1, Done), k), a, goal)
    decreases n, 0
  {
    var g := SortExists(a[..p]);
    var h := SortExists(a[p + 1..]);
    DoneEnds(g);
    DoneEnds(h);
    QuickEnds(p, Done, a[..p], g, g);
    QuickEnds(n - p - 1, Done, a[p + 1..], h, h);
    SidesSorted(a, p, g, h, r);
    ForkEnds(p, Quick(p, Done), p + 1, Quick(n - p - 1, Done), k, a, g, h, goal);
  }

  lemma SidesSorted(a: seq<int>, p: nat, g: seq<int>, h: seq<int>, r: seq<int>)
    requires Partitioned(a, p) && IsSortOf(g, a[..p]) && IsSortOf(h, a[p + 1..]) && IsSortOf(r, a)
    requires |g| == p && |h| == |a| - p - 1
    ensures g + a[p..p + 1] + h == r
  {
    var t := g + a[p..p + 1] + h;
    assert t[..p] == g && t[p + 1..] == h && t[p] == a[p];
    PartitionSorted(a, p, t);
    SortIsUnique(t, r, a);
  }

  // ----- merge_sort -----

  lemma {:induction false} MergeSortingEnds(n: nat, k: Program, a: seq<int>, r: seq<int>, goal: seq<int>)
    requires |a| == n && IsSortOf(r, a) && Ends(k, r, goal)
    ensures Ends(MergeSorting(n, k), a, goal)
    decreases n
  {
    if n <= THRESHOLD {
      SelectionEnds(n, 0, k, a, r, goal);
    } else {
      var m := n / 2;
      var g := SortExists(a[..m]);
      var h := SortExists(a[m..]);
      DoneEnds(g);
      DoneEnds(h);
      MergeSortingEnds(m, Done, a[..m], g, g);
      MergeSortingEnds(n - m, Done, a[m..], h, h);
      SortedHalvesEnd(n, k, a, g, h, r, goal);
      ForkEnds(m, MergeSorting(m, Done), m, MergeSorting(n - m, Done), Merging(n, 0, m, [], k), a, g, h, goal);
    }
  }

  lemma {:induction false} SortedHalvesEnd(n: nat, k: Program, a: seq<int>, g: seq<int>, h: seq<int>, r: seq<int>, goal: seq<int>)
    requires |a| == n && IsSortOf(r, a) && IsSortOf(g, a[..n / 2]) && IsSortOf(h, a[n / 2..]) && Ends(k, r, goal)
    requires |g| == n / 2 && |h| == n - n / 2
    ensures Ends(Merging(n, 0, n / 2, [], k), g + a[n / 2..n / 2] + h, goal)
  {
    var m := n / 2;
    HalvesMerged(a, m, g, h, r);
    assert g + a[m..m] + h == g + h;
    assert (g + h)[0..m] == g && (g + h)[m..] == h && [] + r == r;
    MergingEnds(n, 0, m, [], k, g + h, r, goal);
  }

  lemma HalvesMerged(a: seq<int>, m: nat, g: seq<int>, h: seq<int>, r: seq<int>)
    requires m <= |a| && IsSortOf(g, a[..m]) && IsSortOf(h, a[m..]) && IsSortOf(r, a)
    ensures Merged(g, h) == r && |r| == |a|
  {
    MergedSorts(g, h);
    MergedHolds(g, h);
    assert a == a[..m] + a[m..];
    SortIsUnique(Merged(g, h), r, a);
    assert |multiset(r)| == |multiset(a)|;
  }

  lemma MergedTurn(l: seq<int>, h: seq<int>, result: seq<int>, r: seq<int>)
    requires l != [] && h != [] && result + Merged(l, h) == r
    ensures l[0] < h[0] ==> result + [l[0]] + Merged(l[1..], h) == r
    ensures l[0] >= h[0] ==> result + [h[0]] + Merged(l, h[1..]) == r
  {
  }

  /** The two reads of a comparison, and the branch that follows. */
  lemma {:induction false} MergingReads(n: nat, lo1: nat, lo2: nat, result: seq<int>, k: Program, a: seq<int>, goal: seq<int>)
    requires lo1 < n / 2 && lo2 < n == |a|
    requires a[lo1] < a[lo2] ==> Ends(Read(lo1, x => Merging(n, lo1 + 1, lo2, result + [x], k)), a, goal)
    requires a[lo1] >= a[lo2] ==> Ends(Read(lo2, x => Merging(n, lo1, lo2 + 1, result + [x], k)), a, goal)
    ensures Ends(Merging(n, lo1, lo2, result, k), a, goal)
  {
    var v := a[lo1];
    ReadEnds(lo2, w =>
      if v < w then Read(lo1, x => Merging(n, lo1 + 1, lo2, result + [x], k))
      else Read(lo2, x => Merging(n, lo1, lo2 + 1, result + [x], k)), a, goal);
    ReadEnds(lo1, v => Read(lo2, w =>
      if v < w then Read(lo1, x => Merging(n, lo1 + 1, lo2, result + [x], k))
      else Read(lo2, x => Merging(n, lo1, lo2 + 1, result + [x], k))), a, goal);
  }

  lemma {:induction false} MergingStep(n: nat, lo1: nat, lo2: nat, result: seq<int>, k: Program, a: seq<int>, goal: seq<int>)
    requires lo1 < n / 2 && lo2 < n == |a|
    requires a[lo1] < a[lo2] ==> Ends(Merging(n, lo1 + 1, lo2, result + [a[lo1]], k), a, goal)
    requires a[lo1] >= a[lo2] ==> Ends(Merging(n, lo1, lo2 + 1, result + [a[lo2]], k), a, goal)
    ensures Ends(Merging(n, lo1, lo2, result, k), a, goal)
  {
    if a[lo1] < a[lo2] {
      ReadEnds(lo1, x => Merging(n, lo1 + 1, lo2, result + [x], k), a, goal);
    } else {
      ReadEnds(lo2, x => Merging(n, lo1, lo2 + 1, result + [x], k), a, goal);
    }
    MergingReads(n, lo1, lo2, result, k, a, goal);
  }

  lemma MergedSlices(a: seq<int>, m: nat, lo1: nat, lo2: nat, result: seq<int>, r: seq<int>)
    requires lo1 < m <= |a| && lo2 < |a| && result + Merged(a[lo1..m], a[lo2..]) == r
    ensures a[lo1] < a[lo2] ==> result + [a[lo1]] + Merged(a[lo1 + 1..m], a[lo2..]) == r
    ensures a[lo1] >= a[lo2] ==> result + [a[lo2]] + Merged(a[lo1..m], a[lo2 + 1..]) == r
  {
    MergedTurn(a[lo1..m], a[lo2..], result, r);
    assert a[lo1..m][1..] == a[lo1 + 1..m] && a[lo2..][1..] == a[lo2 + 1..];
  }

  /** The rest of the halves still to be merged behind `result` gives the sorted slice. */
  lemma {:induction false} MergingEnds(n: nat, lo1: nat, lo2: nat, result: seq<int>, k: Program,
                                       a: seq<int>, r: seq<int>, goal: seq<int>)
    requires |a| == n == |r| && lo1 <= n / 2 <= lo2 <= n && Ends(k, r, goal)
    requires result + Merged(a[lo1..n / 2], a[lo2..]) == r
    ensures Ends(Merging(n, lo1, lo2, result, k), a, goal)
    decreases n - lo1 + n - lo2
  {
    var m := n / 2;
    if lo1 < m && lo2 < n {
      MergedSlices(a, m, lo1, lo2, result, r);
      if a[lo1] < a[lo2] {
        MergingEnds(n, lo1 + 1, lo2, result + [a[lo1]], k, a, r, goal);
      } else {
        MergingEnds(n, lo1, lo2 + 1, result + [a[lo2]], k, a, r, goal);
      }
      MergingStep(n, lo1, lo2, result, k, a, goal);
    } else if lo2 < n {
      assert a[lo2..n] == a[lo2..];
      DrainingEnds(n, lo2, n, result, k, a, r, goal);
    } else {
      DrainingEnds(n, lo1, m, result, k, a, r, goal);
    }
  }

  lemma {:induction false} DrainingEnds(n: nat, lo: nat, hi: nat, result: seq<int>, k: Program,
                                        a: seq<int>, r: seq<int>, goal: seq<int>)
    requires |a| == n == |r| && lo <= hi <= n && result + a[lo..hi] == r && Ends(k, r, goal)
    ensures Ends(Draining(n, lo, hi, result, k), a, goal)
    decreases hi - lo
  {
    if lo < hi {
      assert result + [a[lo]] + a[lo + 1..hi] == r;
      DrainingEnds(n, lo + 1, hi, result + [a[lo]], k, a, r, goal);
      ReadEnds(lo, x => Draining(n, lo + 1, hi, result + [x], k), a, goal);
    } else {
      assert result == r;
      CopyingBackEnds(n, 0, result, k, a, goal);
    }
  }

  lemma {:induction false} CopyingBackEnds(n: nat, i: nat, result: seq<int>, k: Program, a: seq<int>, goal: seq<int>)
    requires |a| == n == |result| && i <= n && a[..i] == result[..i] && Ends(k, result, goal)
    ensures Ends(CopyingBack(n, i, result, k), a, goal)
    decreases n - i
  {
    if i == n {
      assert a == result;
    } else {
      var b := a[i := result[i]];
      assert b[..i + 1] == a[..i] + [result[i]] == result[..i + 1];
      CopyingBackEnds(n, i + 1, result, k, b, goal);
      WriteEnds(i, result[i], CopyingBack(n, i + 1, result, k), a, goal);
    }
  }

  // ----- the three sorts -----

  /** The three sorts of a slice of `n` elements. */
  ghost predicate IsSort(p: Program, n: nat) {
    p == Selection(n, 0, Done) || p == Quick(n, Done) || p == MergeSorting(n, Done)
  }

  /** After the run `turns` there were at most `n` steps and no panic; the program is done and has left
    * `r`, or it can go on. */
  ghost predicate EndsWell(p: Program, a: seq<int>, turns: seq<Turn>, n: nat, r: seq<int>)
    requires CanRun(p, a, turns)
  {
    var (q, b) := After(p, a, turns);
    |turns| <= n && !Panics(q) && (q.Done? ==> b == r) && (!q.Done? ==> exists t :: Enabled(q, t))
  }

  /** Whatever the scheduler does and whatever pivots are drawn, each sort ends after a bounded number of
    * steps, meets no panic on the way, can always go on until it is done, and then leaves the one sorted
    * permutation of its input. */
  lemma {:induction false} SortsUnderAnyScheduler(p: Program, a: seq<int>) returns (n: nat, r: seq<int>)
    requires IsSort(p, |a|)
    ensures IsSortOf(r, a) && forall turns :: CanRun(p, a, turns) ==> EndsWell(p, a, turns, n, r)
  {
    r := SortExists(a);
    DoneEnds(r);
    if p == Selection(|a|, 0, Done) {
      SelectionEnds(|a|, 0, Done, a, r, r);
    } else if p == Quick(|a|, Done) {
      QuickEnds(|a|, Done, a, r, r);
    } else {
      MergeSortingEnds(|a|, Done, a, r, r);
    }
    n :| EndsWithin(p, a, n, r);
    forall turns | CanRun(p, a, turns)
      ensures EndsWell(p, a, turns, n, r)
    {
      RunEnds(p, a, n, r, turns);
    }
  }

  /** So any two sorts, under any two schedulers, leave the same slice. */
  lemma {:induction false} SortsAgree(p: Program, p': Program, a: seq<int>, turns: seq<Turn>, turns': seq<Turn>)
    requires IsSort(p, |a|) && IsSort(p', |a|) && CanRun(p, a, turns) && CanRun(p', a, turns')
    requires After(p, a, turns).0.Done? && After(p', a, turns').0.Done?
    ensures After(p, a, turns).1 == After(p', a, turns').1
  {
    var n, r := SortsUnderAnyScheduler(p, a);
    var n', r' := SortsUnderAnyScheduler(p', a);
    assert EndsWell(p, a, turns, n, r) && EndsWell(p', a, turns', n', r');
    SortIsUnique(r, r', a);
  }
}
