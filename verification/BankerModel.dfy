/** The Banker's algorithm on values: what a safe state is, and what the two calls do to the state. */
module BankerModel {
  import opened DistinctSeqs

  /** `available` has one entry per resource; `allocation` and `need` have one row per customer.
    * `outside` is the machine word in front of the allocation matrix. */
  datatype State = State(available: seq<int>, allocation: seq<seq<int>>, need: seq<seq<int>>, outside: int)

  ghost predicate Rectangular(a: seq<seq<int>>, m: nat) {
    forall c :: 0 <= c < |a| ==> |a[c]| == m
  }

  ghost predicate Shaped(s: State) {
    && |s.need| == |s.allocation|
    && Rectangular(s.allocation, |s.available|) && Rectangular(s.need, |s.available|)
  }

  ghost predicate NonNegative(a: seq<seq<int>>) {
    forall c, j :: 0 <= c < |a| && 0 <= j < |a[c]| ==> 0 <= a[c][j]
  }

  // ----- safety -----

  /** What the customers in `who` with a number below `k` hold of resource `j`. */
  ghost function Held(allocation: seq<seq<int>>, who: set<nat>, j: nat, k: nat): int
    requires k <= |allocation| && forall c :: 0 <= c < k ==> j < |allocation[c]|
  {
    if k == 0 then 0
    else Held(allocation, who, j, k - 1) + if k - 1 in who then allocation[k - 1][j] else 0
  }

  /** What is available of resource `j` once the customers in `who` have finished. */
  ghost function Work(s: State, who: set<nat>, j: nat): int
    requires Shaped(s) && j < |s.available|
  {
    s.available[j] + Held(s.allocation, who, j, |s.allocation|)
  }

  ghost predicate CanFinish(s: State, c: nat, who: set<nat>)
    requires Shaped(s) && c < |s.need|
  {
    forall j :: 0 <= j < |s.available| ==> s.need[c][j] <= Work(s, who, j)
  }

  /** Each customer of `order` can finish with what is available plus what those before it held. */
  ghost predicate Completes(s: State, order: seq<nat>)
    requires Shaped(s)
  {
    && Distinct(order, |s.allocation|)
    && forall i :: 0 <= i < |order| ==> CanFinish(s, order[i], Elems(order[..i]))
  }

  /** The textbook definition: some order of all customers lets each of them finish. */
  ghost predicate Safe(s: State)
    requires Shaped(s)
  {
    exists order :: |order| == |s.allocation| && Completes(s, order)
  }

  // ----- sums over customers -----

  lemma {:induction false} HeldMonotone(a: seq<seq<int>>, who: set<nat>, more: set<nat>, j: nat, k: nat)
    requires k <= |a| && (forall c :: 0 <= c < k ==> j < |a[c]| && 0 <= a[c][j]) && who <= more
    ensures 0 <= Held(a, who, j, k) <= Held(a, more, j, k)
  {
    if k > 0 { HeldMonotone(a, who, more, j, k - 1); }
  }

  lemma {:induction false} HeldAdd(a: seq<seq<int>>, who: set<nat>, x: nat, j: nat, k: nat)
    requires k <= |a| && (forall c :: 0 <= c < k ==> j < |a[c]|) && x !in who
    ensures Held(a, who + {x}, j, k) == Held(a, who, j, k) + if x < k then a[x][j] else 0
  {
    if k > 0 { HeldAdd(a, who, x, j, k - 1); }
  }

  lemma {:induction false} HeldUpdate(a: seq<seq<int>>, x: nat, row: seq<int>, who: set<nat>, j: nat, k: nat)
    requires k <= |a| && x < |a| && (forall c :: 0 <= c < k || c == x ==> j < |a[c]|) && j < |row|
    ensures Held(a[x := row], who, j, k) ==
            Held(a, who, j, k) + if x in who && x < k then row[j] - a[x][j] else 0
  {
    if k > 0 { HeldUpdate(a, x, row, who, j, k - 1); }
  }

  /** One more customer finishes. */
  lemma WorkAdd(s: State, who: set<nat>, x: nat, j: nat)
    requires Shaped(s) && j < |s.available| && x < |s.allocation| && x !in who
    ensures Work(s, who + {x}, j) == Work(s, who, j) + s.allocation[x][j]
  {
    HeldAdd(s.allocation, who, x, j, |s.allocation|);
  }

  // ----- the greedy search -----

  /** The first customer of `order` that is not in `done`. */
  lemma FirstLeft(order: seq<nat>, done: set<nat>, i: nat) returns (k: nat)
    requires i <= |order| && Elems(order[..i]) <= done && !(Elems(order) <= done)
    ensures k < |order| && order[k] !in done && Elems(order[..k]) <= done
    decreases |order| - i
  {
    assert order[..|order|] == order;
    if i < |order| && order[i] !in done {
      k := i;
    } else {
      assert order[..i + 1] == order[..i] + [order[i]];
      k := FirstLeft(order, done, i + 1);
    }
  }

  /** The exchange argument: when nobody outside `done` can finish, no order of all customers works,
    * however `done` was reached. */
  lemma StuckMeansUnsafe(s: State, done: seq<nat>)
    requires Shaped(s) && NonNegative(s.allocation)
    requires Distinct(done, |s.allocation|) && |done| < |s.allocation|
    requires forall c: nat :: c < |s.allocation| && c !in done ==> !CanFinish(s, c, Elems(done))
    ensures !Safe(s)
  {
    if Safe(s) {
      var order :| |order| == |s.allocation| && Completes(s, order);
      DistinctCovers(order, |s.allocation|);
      DistinctCovers(done, |s.allocation|);
      if Elems(order) <= Elems(done) { SubsetSize(Elems(order), Elems(done)); assert false; }
      var k := FirstLeft(order, Elems(done), 0);
      var c, before := order[k], Elems(order[..k]);
      assert CanFinish(s, c, before);
      forall j | 0 <= j < |s.available|
        ensures s.need[c][j] <= Work(s, Elems(done), j)
      {
        HeldMonotone(s.allocation, before, Elems(done), j, |s.allocation|);
      }
      assert CanFinish(s, c, Elems(done));
    }
  }

  lemma {:induction false} HeldByNone(a: seq<seq<int>>, j: nat, k: nat)
    requires k <= |a| && forall c :: 0 <= c < k ==> j < |a[c]|
    ensures Held(a, {}, j, k) == 0
  {
    if k > 0 { HeldByNone(a, j, k - 1); }
  }

  lemma HeldByNobody(s: State)
    requires Shaped(s)
    ensures forall j :: 0 <= j < |s.available| ==> Work(s, Elems([]), j) == s.available[j]
  {
    forall j | 0 <= j < |s.available|
      ensures Work(s, Elems([]), j) == s.available[j]
    {
      assert Elems([]) == {};
      HeldByNone(s.allocation, j, |s.allocation|);
    }
  }

  lemma Finished(s: State, done: seq<nat>, c: nat)
    requires Shaped(s) && c < |s.allocation| && c !in done
    ensures forall j :: 0 <= j < |s.available| ==>
      Work(s, Elems(done + [c]), j) == Work(s, Elems(done), j) + s.allocation[c][j]
  {
    ElemsSnoc(done, c);
    forall j | 0 <= j < |s.available|
      ensures Work(s, Elems(done + [c]), j) == Work(s, Elems(done), j) + s.allocation[c][j]
    {
      WorkAdd(s, Elems(done), c, j);
    }
  }

  lemma CompletesSnoc(s: State, done: seq<nat>, c: nat)
    requires Shaped(s) && Completes(s, done) && c < |s.allocation| && c !in done && CanFinish(s, c, Elems(done))
    ensures Completes(s, done + [c])
  {
    var order := done + [c];
    forall i | 0 <= i < |order|
      ensures CanFinish(s, order[i], Elems(order[..i]))
    {
      assert order[..i] == done[..i];
      if i == |done| { assert done[..i] == done; }
    }
  }

  // ----- the effect of the two calls -----

  /** Row or vector `v` with `d` added, times `sign`, in the entries from `lo` up to `hi`. */
  ghost function Moved(v: seq<int>, d: seq<int>, sign: int, lo: int, hi: int): (r: seq<int>)
    requires |v| <= |d|
    ensures |r| == |v| && forall j :: 0 <= j < |v| ==> r[j] == if lo <= j < hi then v[j] + sign * d[j] else v[j]
  {
    seq(|v|, j requires 0 <= j < |v| => if lo <= j < hi then v[j] + sign * d[j] else v[j])
  }

  /** Customer `c` has been handed the resources from `lo` up to `hi` of its request. */
  ghost function Granted(s: State, c: nat, request: seq<int>, lo: int, hi: int): (r: State)
    requires Shaped(s) && c < |s.allocation| && |s.available| == |request|
    ensures Shaped(r) && |r.available| == |s.available| && |r.allocation| == |s.allocation|
  {
    State(Moved(s.available, request, -1, lo, hi),
          s.allocation[c := Moved(s.allocation[c], request, 1, lo, hi)],
          s.need[c := Moved(s.need[c], request, -1, lo, hi)],
          s.outside)
  }

  /** Customer `c` has given back the first `i` resources of its release. Its need stays as it is. */
  ghost function Returned(s: State, c: nat, release: seq<int>, i: nat): (r: State)
    requires Shaped(s) && c < |s.allocation| && |s.available| == |release|
    ensures Shaped(r) && |r.available| == |s.available| && |r.allocation| == |s.allocation|
  {
    s.(available := Moved(s.available, release, 1, 0, i),
       allocation := s.allocation[c := Moved(s.allocation[c], release, -1, 0, i)])
  }

  /** The word in front of row `c` of the allocation matrix: the end of the row before, or outside. */
  ghost function AddBefore(s: State, c: nat, d: int): (r: State)
    requires Shaped(s) && c < |s.allocation| && 0 < |s.available|
    ensures Shaped(r) && |r.available| == |s.available| && |r.allocation| == |s.allocation|
  {
    if c == 0 then s.(outside := s.outside + d)
    else
      var last := |s.available| - 1;
      s.(allocation := s.allocation[c - 1 := s.allocation[c - 1][last := s.allocation[c - 1][last] + d]])
  }

  /** What the rollback of a release rejected at resource `k` leaves behind: the resource before `k`
    * is lost from the allocation, and the word in front of the row gains `stray`, the word in front
    * of the argument. */
  ghost function BadlyRolledBack(s: State, c: nat, release: seq<int>, k: nat, stray: int): (r: State)
    requires Shaped(s) && c < |s.allocation| && k <= |s.available| == |release|
    ensures Shaped(r) && |r.available| == |s.available| && |r.allocation| == |s.allocation|
  {
    if k == 0 then s
    else
      var row := s.allocation[c];
      AddBefore(s.(allocation := s.allocation[c := row[k - 1 := row[k - 1] - release[k - 1]]]), c, stray)
  }

  /** The rollback of a release rejected at resource `k`, when it has come down to `i`. */
  ghost function Rolling(s: State, c: nat, release: seq<int>, k: nat, i: nat): (r: State)
    requires Shaped(s) && c < |s.allocation| && i <= k <= |s.available| == |release|
    ensures Shaped(r) && |r.available| == |s.available| && |r.allocation| == |s.allocation|
  {
    var row := Moved(s.allocation[c], release, -1, 0, i - 1);
    s.(available := Moved(s.available, release, 1, 0, i),
       allocation := s.allocation[c := if k == 0 then row else row[k - 1 := s.allocation[c][k - 1] - release[k - 1]]])
  }

  /** The request for resource `j` is neither negative nor more than is needed or available. */
  ghost predicate InRange(s: State, c: nat, request: seq<int>, j: nat)
    requires Shaped(s) && c < |s.need| && j < |request| == |s.available|
  {
    0 <= request[j] <= s.need[c][j] && request[j] <= s.available[j]
  }

  /** Resource `k` is the first one for which the request is out of range. */
  ghost predicate RequestStops(s: State, c: nat, request: seq<int>, k: nat)
    requires Shaped(s) && c < |s.need| && |request| == |s.available|
  {
    && k < |request| && !InRange(s, c, request, k)
    && forall j :: 0 <= j < k ==> InRange(s, c, request, j)
  }

  ghost predicate ReleaseStops(s: State, c: nat, release: seq<int>, k: nat)
    requires Shaped(s) && c < |s.allocation| && |release| == |s.available|
  {
    && k < |release| && !(0 <= release[k] <= s.allocation[c][k])
    && forall j :: 0 <= j < k ==> 0 <= release[j] <= s.allocation[c][j]
  }

  /** The code with which a request is turned down before the safety check. */
  ghost predicate RequestFails(s: State, c: nat, request: seq<int>, code: int)
    requires Shaped(s) && c < |s.need| && |request| == |s.available|
  {
    exists k: nat :: RequestStops(s, c, request, k) && code == if request[k] > s.available[k] then -2 else -1
  }

  /** request_resources: its result and the new state. */
  ghost predicate Request(s: State, customer: int, request: seq<int>, code: int, s': State)
    requires Shaped(s) && |request| == |s.available|
  {
    if !(0 <= customer < |s.allocation|) then code == -1 && s' == s
    else if exists k: nat :: RequestStops(s, customer, request, k) then
      RequestFails(s, customer, request, code) && s' == s
    else if Safe(Granted(s, customer, request, 0, |request|)) then
      code == 0 && s' == Granted(s, customer, request, 0, |request|)
    else code == -3 && s' == s
  }

  /** release_resources: its result and the new state. */
  ghost predicate Release(s: State, customer: int, release: seq<int>, stray: int, code: int, s': State)
    requires Shaped(s) && |release| == |s.available|
  {
    if !(0 <= customer < |s.allocation|) then code == -1 && s' == s
    else if exists k: nat :: ReleaseStops(s, customer, release, k) then
      code == -1 && exists k: nat :: ReleaseStops(s, customer, release, k)
                                  && s' == BadlyRolledBack(s, customer, release, k, stray)
    else code == 0 && s' == Returned(s, customer, release, |release|)
  }

  lemma GrantedNothing(s: State, c: nat, request: seq<int>)
    requires Shaped(s) && c < |s.allocation| && |s.available| == |request|
    ensures Granted(s, c, request, 0, 0) == s && Granted(s, c, request, |request|, |request|) == s
  {
    assert forall v: seq<int> :: |v| == |request| ==>
      Moved(v, request, 1, 0, 0) == v && Moved(v, request, -1, 0, 0) == v;
    assert forall v: seq<int> :: |v| == |request| ==>
      Moved(v, request, 1, |request|, |request|) == v && Moved(v, request, -1, |request|, |request|) == v;
  }

  lemma GrantedNonNegative(s: State, c: nat, request: seq<int>)
    requires Shaped(s) && c < |s.need| && |request| == |s.available| && NonNegative(s.allocation)
    requires forall j :: 0 <= j < |request| ==> InRange(s, c, request, j)
    ensures NonNegative(Granted(s, c, request, 0, |request|).allocation)
    ensures forall k: nat :: !RequestStops(s, c, request, k)
  {
    var r := Granted(s, c, request, 0, |request|);
    forall d, j | 0 <= d < |r.allocation| && 0 <= j < |r.allocation[d]|
      ensures 0 <= r.allocation[d][j]
    {
      assert 0 <= s.allocation[d][j] && InRange(s, c, request, j);
    }
  }

  lemma ReturnedNothing(s: State, c: nat, release: seq<int>)
    requires Shaped(s) && c < |s.allocation| && |s.available| == |release|
    ensures Returned(s, c, release, 0) == s
  {
    assert Moved(s.available, release, 1, 0, 0) == s.available;
    assert Moved(s.allocation[c], release, -1, 0, 0) == s.allocation[c];
  }

  lemma RollingEnds(s: State, c: nat, release: seq<int>, k: nat)
    requires Shaped(s) && c < |s.allocation| && k <= |s.available| == |release|
    ensures Rolling(s, c, release, k, k) == Returned(s, c, release, k)
    ensures k == 0 ==> Returned(s, c, release, 0) == s
  {
    ReturnedNothing(s, c, release);
    var row := Moved(s.allocation[c], release, -1, 0, k - 1);
    if k == 0 {
      assert row == s.allocation[c];
    } else {
      assert row[k - 1 := s.allocation[c][k - 1] - release[k - 1]] == Moved(s.allocation[c], release, -1, 0, k);
    }
  }
}
