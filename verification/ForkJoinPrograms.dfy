/** The three sorts as programs of goroutines, one read or write of an element at a time. A program works
  * on a slice of `n` elements and goes on with `k`. */
module ForkJoinPrograms {
  import opened Goroutines
  import opened ForkJoinSort

  /** arr[x], arr[y] = arr[y], arr[x] */
  function Exchange(x: int, y: int, k: Program): Program {
    Read(y, vy => Read(x, vx => Write(x, vy, Write(y, vx, k))))
  }

  // ----- ordinary_sort -----

  function Selection(n: nat, i: nat, k: Program): Program
    requires i <= n
    decreases n - i, n + 1
  {
    if i == n then k else Read(i, v => Minimum(n, i, i + 1, i, v, k))
  }

  /** The inner loop, then the exchange. */
  function Minimum(n: nat, i: nat, j: nat, minPos: int, minItem: int, k: Program): Program
    requires i < j <= n
    decreases n - i, n - j
  {
    if j == n then Exchange(i, minPos, Selection(n, i + 1, k))
    else Read(j, v =>
      if v < minItem then Read(j, w => Minimum(n, i, j + 1, j, w, k))
      else Minimum(n, i, j + 1, minPos, minItem, k))
  }

  // ----- quick_sort -----

  function Quick(n: nat, k: Program): Program
    decreases n, n + 2
  {
    if n <= THRESHOLD then Selection(n, 0, k)
    else Choose(n, pivot => Exchange(n - 1, pivot, Partitioning(n, 0, 0, k)))
  }

  /** The partition loop at `i`; then the two goroutines. An index that reaches the end would panic. */
  function Partitioning(n: nat, i: nat, lo: nat, k: Program): Program
    requires i <= n && 0 < n
    decreases n, n - i
  {
    if i == n then
      if lo < n then Exchange(lo, n - 1, Fork(lo, Quick(lo, Done), lo + 1, Quick(n - lo - 1, Done), k)) else Panic
    else Read(i, v => Read(n - 1, w =>
      if v < w then Exchange(lo, i, Partitioning(n, i + 1, lo + 1, k)) else Partitioning(n, i + 1, lo, k)))
  }

  // ----- merge_sort -----

  function MergeSorting(n: nat, k: Program): Program
    decreases n
  {
    if n <= THRESHOLD then Selection(n, 0, k)
    else Fork(n / 2, MergeSorting(n / 2, Done), n / 2, MergeSorting(n - n / 2, Done), Merging(n, 0, n / 2, [], k))
  }

  /** The first loop of the merge; `result` is a slice of the goroutine's own. */
  function Merging(n: nat, lo1: nat, lo2: nat, result: seq<int>, k: Program): Program
    requires lo1 <= n / 2 && lo2 <= n
    decreases n - lo1 + n - lo2
  {
    if lo1 < n / 2 && lo2 < n then
      Read(lo1, v => Read(lo2, w =>
        if v < w then Read(lo1, x => Merging(n, lo1 + 1, lo2, result + [x], k))
        else Read(lo2, x => Merging(n, lo1, lo2 + 1, result + [x], k))))
    else if lo2 < n then Draining(n, lo2, n, result, k)
    else Draining(n, lo1, n / 2, result, k)
  }

  function Draining(n: nat, lo: nat, hi: nat, result: seq<int>, k: Program): Program
    requires lo <= hi
    decreases hi - lo
  {
    if lo < hi then Read(lo, x => Draining(n, lo + 1, hi, result + [x], k)) else CopyingBack(n, 0, result, k)
  }

  function CopyingBack(n: nat, i: nat, result: seq<int>, k: Program): Program
    requires i <= n
    decreases n - i
  {
    if i == n then k
    else if i < |result| then Write(i, result[i], CopyingBack(n, i + 1, result, k))
    else Panic
  }
}
