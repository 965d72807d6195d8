/** The orders in which the FCFS, SJF and priority schedulers run their tasks. A task list has the
  * newest task first. */
module ScheduleModel {
  import opened TaskList
  import opened Sequences

  datatype Policy = FCFS | SJF | PRIORITY

  /** The policy runs a task of least key next. */
  function Key(p: Policy, t: Task): int {
    match p
    case FCFS => 0
    case SJF => t.burst
    case PRIORITY => -t.priority
  }

  /** Task `k` has the least key, and among those the last position. */
  ghost predicate IsPick(ts: seq<Task>, p: Policy, k: nat) {
    && k < |ts|
    && (forall j :: 0 <= j < |ts| ==> Key(p, ts[k]) <= Key(p, ts[j]))
    && (forall j :: k < j < |ts| ==> Key(p, ts[k]) < Key(p, ts[j]))
  }

  function Pick(ts: seq<Task>, p: Policy): (k: nat)
    requires ts != []
    ensures IsPick(ts, p, k)
  {
    if |ts| == 1 then 0
    else
      var k := Pick(ts[..|ts| - 1], p);
      if Key(p, ts[|ts| - 1]) <= Key(p, ts[k]) then |ts| - 1 else k
  }

  lemma PickUnique(ts: seq<Task>, p: Policy, k: nat)
    requires IsPick(ts, p, k)
    ensures Pick(ts, p) == k
  {
  }

  /** The order in which the tasks are run: each time the picked task runs, and the first task of its
    * name is deleted. */
  ghost function Order(ts: seq<Task>, p: Policy): seq<Task>
    decreases |ts|
  {
    if ts == [] then []
    else
      var t := ts[Pick(ts, p)];
      [t] + Order(Deleted(ts, t.name), p)
  }

  // ----- what the order ought to be -----

  ghost predicate DistinctTasks(ts: seq<Task>) {
    forall i, j :: 0 <= i < j < |ts| ==> ts[i] != ts[j]
  }

  ghost predicate DistinctNames(ts: seq<Task>) {
    forall i, j :: 0 <= i < j < |ts| ==> ts[i].name != ts[j].name
  }

  /** Task `a` was added before task `b`. */
  ghost predicate AddedBefore(ts: seq<Task>, a: Task, b: Task) {
    exists i, j :: 0 <= i < j < |ts| && ts[i] == b && ts[j] == a
  }

  /** `out` is the stable sort by key of the tasks in the order in which they were added. */
  ghost predicate StableSort(ts: seq<Task>, out: seq<Task>, p: Policy) {
    && multiset(out) == multiset(ts)
    && forall i, j :: 0 <= i < j < |out| ==> Ahead(ts, out[i], out[j], p)
  }

  ghost predicate Ahead(ts: seq<Task>, a: Task, b: Task, p: Policy) {
    Key(p, a) < Key(p, b) || (Key(p, a) == Key(p, b) && AddedBefore(ts, a, b))
  }

  /** Of two tasks with the same name the one added first has the larger key. */
  ghost predicate Compatible(ts: seq<Task>, p: Policy) {
    forall i, j :: 0 <= i < j < |ts| && ts[i].name == ts[j].name ==> Key(p, ts[i]) < Key(p, ts[j])
  }

  // ----- one deletion -----

  lemma WithoutMultiset<T>(s: seq<T>, k: nat)
    requires k < |s|
    ensures multiset(s) == multiset{s[k]} + multiset(Without(s, k))
  {
    assert s == s[..k] + [s[k]] + s[k + 1..];
    assert Without(s, k) == s[..k] + s[k + 1..];
  }

  lemma WithoutDistinct(ts: seq<Task>, k: nat)
    requires k < |ts| && DistinctTasks(ts)
    ensures DistinctTasks(Without(ts, k)) && ts[k] !in Without(ts, k)
  {
  }

  lemma OrderStep(ts: seq<Task>, p: Policy, runs: seq<Task>)
    requires ts != [] && DistinctTasks(ts)
    ensures var t := ts[Pick(ts, p)];
      && HasName(ts, t.name) && DistinctTasks(Deleted(ts, t.name)) && |Deleted(ts, t.name)| < |ts|
      && runs + [t] + Order(Deleted(ts, t.name), p) == runs + Order(ts, p)
  {
    var t := ts[Pick(ts, p)];
    assert ts[Pick(ts, p)].name == t.name;
    WithoutDistinct(ts, FirstNamed(ts, t.name, 0));
    Associative(runs, [t], Order(Deleted(ts, t.name), p));
  }

  /** Where a task of the shorter list is in the longer one. */
  function Shift(k: nat, i: nat): nat {
    if i < k then i else i + 1
  }

  function Unshift(k: nat, i: nat): nat
    requires i != k
  {
    if i < k then i else i - 1
  }

  lemma AddedBeforeAfter(ts: seq<Task>, k: nat, a: Task, b: Task)
    requires k < |ts| && AddedBefore(ts, a, b) && a != ts[k] && b != ts[k]
    ensures AddedBefore(Without(ts, k), a, b)
  {
    var us := Without(ts, k);
    var i, j :| 0 <= i < j < |ts| && ts[i] == b && ts[j] == a;
    assert us[Unshift(k, i)] == b && us[Unshift(k, j)] == a;
  }

  lemma AddedBeforeBefore(ts: seq<Task>, k: nat, a: Task, b: Task)
    requires k < |ts| && AddedBefore(Without(ts, k), a, b)
    ensures AddedBefore(ts, a, b)
  {
    var us := Without(ts, k);
    var i, j :| 0 <= i < j < |us| && us[i] == b && us[j] == a;
    assert ts[Shift(k, i)] == b && ts[Shift(k, j)] == a;
  }

  lemma WithoutAhead(ts: seq<Task>, k: nat, a: Task, b: Task, p: Policy)
    requires k < |ts| && a != ts[k] && b != ts[k]
    ensures Ahead(ts, a, b, p) <==> Ahead(Without(ts, k), a, b, p)
  {
    if AddedBefore(ts, a, b) { AddedBeforeAfter(ts, k, a, b); }
    if AddedBefore(Without(ts, k), a, b) { AddedBeforeBefore(ts, k, a, b); }
  }

  /** The picked task belongs before every other one. */
  lemma PickIsAhead(ts: seq<Task>, p: Policy, k: nat, b: Task)
    requires IsPick(ts, p, k) && b in ts && b != ts[k]
    ensures Ahead(ts, ts[k], b, p)
  {
    var j :| 0 <= j < |ts| && ts[j] == b;
    if j < k { assert ts[j] == b && ts[k] == ts[k]; }
  }

  lemma {:induction false} OrderMembers(ts: seq<Task>, p: Policy)
    ensures forall t :: t in Order(ts, p) ==> t in ts
    decreases |ts|
  {
    if ts != [] {
      var t := ts[Pick(ts, p)];
      var us := Deleted(ts, t.name);
      OrderMembers(us, p);
      assert forall u :: u in us ==> u in ts;
    }
  }

  lemma SortStepMultisets(ts: seq<Task>, k: nat, rest: seq<Task>)
    requires k < |ts|
    ensures multiset([ts[k]] + rest) == multiset(ts) <==> multiset(rest) == multiset(Without(ts, k))
  {
    WithoutMultiset(ts, k);
    var one := multiset{ts[k]};
    assert multiset([ts[k]] + rest) == one + multiset(rest);
    assert one + multiset(rest) - one == multiset(rest);
    assert one + multiset(Without(ts, k)) - one == multiset(Without(ts, k));
  }

  lemma RestAhead(ts: seq<Task>, k: nat, rest: seq<Task>, p: Policy)
    requires k < |ts| && DistinctTasks(ts) && forall t :: t in rest ==> t in Without(ts, k)
    ensures forall i, j :: 0 <= i < j < |rest| ==>
      (Ahead(Without(ts, k), rest[i], rest[j], p) <==> Ahead(ts, rest[i], rest[j], p))
  {
    WithoutDistinct(ts, k);
    forall i, j | 0 <= i < j < |rest|
      ensures Ahead(Without(ts, k), rest[i], rest[j], p) <==> Ahead(ts, rest[i], rest[j], p)
    {
      assert rest[i] in Without(ts, k) && rest[j] in Without(ts, k);
      WithoutAhead(ts, k, rest[i], rest[j], p);
    }
  }

  /** If the picked task is the one deleted, the rest of the order decides. */
  lemma SortStep(ts: seq<Task>, p: Policy)
    requires ts != [] && DistinctTasks(ts)
    requires FirstNamed(ts, ts[Pick(ts, p)].name, 0) == Pick(ts, p)
    ensures var us := Without(ts, Pick(ts, p));
      StableSort(ts, Order(ts, p), p) <==> StableSort(us, Order(us, p), p)
  {
    var k := Pick(ts, p);
    var us := Without(ts, k);
    var rest := Order(us, p);
    assert Order(ts, p) == [ts[k]] + rest;
    SortStepMultisets(ts, k, rest);
    if multiset(rest) == multiset(us) {
      OrderMembers(us, p);
      RestAhead(ts, k, rest, p);
      AheadSnoc(ts, us, ts[k], rest, p, k);
    }
  }

  lemma AheadSnoc(ts: seq<Task>, us: seq<Task>, t: Task, rest: seq<Task>, p: Policy, k: nat)
    requires IsPick(ts, p, k) && DistinctTasks(ts) && t == ts[k] && us == Without(ts, k)
    requires multiset(rest) == multiset(us) && multiset([t] + rest) == multiset(ts)
    requires forall i, j :: 0 <= i < j < |rest| ==> (Ahead(us, rest[i], rest[j], p) <==> Ahead(ts, rest[i], rest[j], p))
    ensures StableSort(ts, [t] + rest, p) <==> StableSort(us, rest, p)
  {
    var out := [t] + rest;
    if StableSort(us, rest, p) {
      forall i, j | 0 <= i < j < |out|
        ensures Ahead(ts, out[i], out[j], p)
      {
        if i == 0 {
          assert out[j] in multiset(us);
          assert out[j] in us && out[j] in ts && t !in us;
          PickIsAhead(ts, p, k, out[j]);
        } else {
          assert out[i] == rest[i - 1] && out[j] == rest[j - 1];
          assert Ahead(us, rest[i - 1], rest[j - 1], p);
        }
      }
    }
    if StableSort(ts, out, p) {
      forall i, j | 0 <= i < j < |rest|
        ensures Ahead(us, rest[i], rest[j], p)
      {
        assert Ahead(ts, out[i + 1], out[j + 1], p);
      }
    }
  }

  // ----- exactly when the order is right -----

  lemma FirstOfOrder(ts: seq<Task>, p: Policy)
    requires ts != []
    ensures |Order(ts, p)| > 0 && Order(ts, p)[0] == ts[Pick(ts, p)]
  {
  }

  lemma NextOfOrder(ts: seq<Task>, p: Policy, us: seq<Task>)
    requires ts != [] && HasName(ts, ts[Pick(ts, p)].name) && us == Deleted(ts, ts[Pick(ts, p)].name) && us != []
    ensures |Order(ts, p)| > 1 && Order(ts, p)[1] == us[Pick(us, p)]
  {
    FirstOfOrder(us, p);
  }

  lemma DeletedIs(ts: seq<Task>, k: nat, d: nat)
    requires k < |ts| && d == FirstNamed(ts, ts[k].name, 0)
    ensures d <= k && HasName(ts, ts[k].name) && Deleted(ts, ts[k].name) == Without(ts, d)
  {
    assert ts[d].name == ts[k].name;
  }

  /** A task that shares its name with a nearer one is not deleted when it is picked: it runs again. */
  lemma PickedTwice(ts: seq<Task>, p: Policy, k: nat, d: nat)
    requires k < |ts| && k == Pick(ts, p) && d == FirstNamed(ts, ts[k].name, 0) && d != k
    ensures |Order(ts, p)| > 1 && Order(ts, p)[0] == ts[k] && Order(ts, p)[1] == ts[k]
  {
    DeletedIs(ts, k, d);
    PickMovesUp(ts, p, k, d);
    NextOfOrder(ts, p, Without(ts, d));
    FirstOfOrder(ts, p);
  }

  /** The nearer task, which is deleted instead, never runs. */
  lemma NeverPicked(ts: seq<Task>, p: Policy, k: nat, d: nat)
    requires k < |ts| && k == Pick(ts, p) && d == FirstNamed(ts, ts[k].name, 0) && d != k && DistinctTasks(ts)
    ensures ts[d] !in Order(ts, p)
  {
    DeletedIs(ts, k, d);
    WithoutDistinct(ts, d);
    OrderMembers(Without(ts, d), p);
  }

  /** The picked task is the first two to run, its namesake is lost, and the order is not the stable sort. */
  lemma RunsTwice(ts: seq<Task>, p: Policy)
    requires ts != [] && DistinctTasks(ts)
    requires FirstNamed(ts, ts[Pick(ts, p)].name, 0) != Pick(ts, p)
    ensures var k, out := Pick(ts, p), Order(ts, p);
      |out| > 1 && out[0] == out[1] == ts[k] && ts[FirstNamed(ts, ts[k].name, 0)] !in out
    ensures !StableSort(ts, Order(ts, p), p)
  {
    var k := Pick(ts, p);
    PickedTwice(ts, p, k, FirstNamed(ts, ts[k].name, 0));
    NeverPicked(ts, p, k, FirstNamed(ts, ts[k].name, 0));
    NotAheadOfItself(ts, ts[k], p);
  }

  lemma PickMovesUp(ts: seq<Task>, p: Policy, k: nat, d: nat)
    requires IsPick(ts, p, k) && d < k
    ensures var us := Without(ts, d); Pick(us, p) == k - 1 && us[k - 1] == ts[k]
  {
    var us := Without(ts, d);
    forall j | 0 <= j < |us|
      ensures Key(p, ts[k]) <= Key(p, us[j]) && (k - 1 < j ==> Key(p, ts[k]) < Key(p, us[j]))
    {
      assert us[j] == ts[Shift(d, j)];
    }
    PickUnique(us, p, k - 1);
  }

  lemma NotAheadOfItself(ts: seq<Task>, t: Task, p: Policy)
    requires DistinctTasks(ts)
    ensures !Ahead(ts, t, t, p)
  {
  }

  lemma CompatibleDeletesPick(ts: seq<Task>, p: Policy)
    requires ts != [] && Compatible(ts, p)
    ensures FirstNamed(ts, ts[Pick(ts, p)].name, 0) == Pick(ts, p)
  {
  }

  lemma CompatibleAfter(ts: seq<Task>, p: Policy, k: nat)
    requires k < |ts| && Compatible(ts, p)
    ensures Compatible(Without(ts, k), p)
  {
    var us := Without(ts, k);
    forall i, j | 0 <= i < j < |us| && us[i].name == us[j].name
      ensures Key(p, us[i]) < Key(p, us[j])
    {
      assert us[i] == ts[Shift(k, i)] && us[j] == ts[Shift(k, j)];
    }
  }

  lemma CompatibleBefore(ts: seq<Task>, p: Policy, k: nat)
    requires IsPick(ts, p, k) && Compatible(Without(ts, k), p)
    requires forall i :: 0 <= i < k ==> ts[i].name != ts[k].name
    ensures Compatible(ts, p)
  {
    var us := Without(ts, k);
    forall i, j | 0 <= i < j < |ts| && ts[i].name == ts[j].name
      ensures Key(p, ts[i]) < Key(p, ts[j])
    {
      if j != k && i != k {
        var i', j' := if i < k then i else i - 1, if j < k then j else j - 1;
        assert us[i'] == ts[i] && us[j'] == ts[j];
      }
    }
  }

  /** The tasks run in the stable sort by key of the order in which they were added, each exactly once,
    * if and only if of any two tasks with the same name the one added first has the larger key. */
  lemma {:induction false} OrderIsStableSortIff(ts: seq<Task>, p: Policy)
    requires DistinctTasks(ts)
    ensures StableSort(ts, Order(ts, p), p) <==> Compatible(ts, p)
    decreases |ts|
  {
    if ts != [] {
      var k := Pick(ts, p);
      if FirstNamed(ts, ts[k].name, 0) == k {
        WithoutDistinct(ts, k);
        OrderIsStableSortIff(Without(ts, k), p);
        SortStep(ts, p);
        if Compatible(ts, p) { CompatibleAfter(ts, p, k); }
        if Compatible(Without(ts, k), p) { CompatibleBefore(ts, p, k); }
      } else {
        RunsTwice(ts, p);
        if Compatible(ts, p) { CompatibleDeletesPick(ts, p); }
      }
    }
  }

  /** Under the same condition every task runs, and just once. */
  lemma {:induction false} RunsEachOnceIff(ts: seq<Task>, p: Policy)
    requires DistinctTasks(ts)
    ensures multiset(Order(ts, p)) == multiset(ts) <==> Compatible(ts, p)
    decreases |ts|
  {
    if ts != [] {
      var k := Pick(ts, p);
      var d := FirstNamed(ts, ts[k].name, 0);
      DeletedIs(ts, k, d);
      if d == k {
        WithoutDistinct(ts, k);
        RunsEachOnceIff(Without(ts, k), p);
        SortStepMultisets(ts, k, Order(Without(ts, k), p));
        if Compatible(ts, p) { CompatibleAfter(ts, p, k); }
        if Compatible(Without(ts, k), p) { CompatibleBefore(ts, p, k); }
      } else {
        NeverPicked(ts, p, k, d);
        assert ts[d] in multiset(ts) && ts[d] !in multiset(Order(ts, p));
        if Compatible(ts, p) { CompatibleDeletesPick(ts, p); }
      }
    }
  }

  // ----- FCFS -----

  function Reversed<T>(s: seq<T>): (r: seq<T>)
    ensures |r| == |s|
  {
    if s == [] then [] else [s[|s| - 1]] + Reversed(s[..|s| - 1])
  }

  lemma LastNameFresh(ts: seq<Task>)
    requires ts != [] && FirstNamed(ts, ts[|ts| - 1].name, 0) == |ts| - 1
    ensures DistinctNames(ts) <==> DistinctNames(ts[..|ts| - 1])
  {
    var us := ts[..|ts| - 1];
    if DistinctNames(us) {
      forall i, j | 0 <= i < j < |ts|
        ensures ts[i].name != ts[j].name
      {
        if j < |us| { assert us[i] == ts[i] && us[j] == ts[j]; }
      }
    }
  }

  lemma FcfsStep(ts: seq<Task>)
    requires ts != [] && FirstNamed(ts, ts[|ts| - 1].name, 0) == |ts| - 1
    ensures Order(ts, FCFS) == [ts[|ts| - 1]] + Order(ts[..|ts| - 1], FCFS)
  {
    var k := |ts| - 1;
    PickUnique(ts, FCFS, k);
    assert Without(ts, k) == ts[..k];
  }

  /** FCFS runs the tasks in the order in which they were added if and only if no two share a name. */
  lemma {:induction false} FcfsIsArrivalOrderIff(ts: seq<Task>)
    requires DistinctTasks(ts)
    ensures Order(ts, FCFS) == Reversed(ts) <==> DistinctNames(ts)
    decreases |ts|
  {
    if ts != [] {
      var k := |ts| - 1;
      var d := FirstNamed(ts, ts[k].name, 0);
      if d == k {
        FcfsIsArrivalOrderIff(ts[..k]);
        FcfsStep(ts);
        LastNameFresh(ts);
        assert Order(ts, FCFS)[1..] == Order(ts[..k], FCFS) && Reversed(ts)[1..] == Reversed(ts[..k]);
      } else {
        assert ts[d].name == ts[k].name;
        FcfsRepeats(ts, d);
      }
    }
  }

  /** If its name repeats, the oldest task runs twice in a row and the newest of that name never. */
  lemma FcfsRepeats(ts: seq<Task>, d: nat)
    requires DistinctTasks(ts) && 1 < |ts| && d < |ts| - 1 && d == FirstNamed(ts, ts[|ts| - 1].name, 0)
    ensures var out := Order(ts, FCFS); |out| > 1 && out[0] == out[1] == ts[|ts| - 1] && ts[d] !in out
    ensures Order(ts, FCFS) != Reversed(ts)
  {
    var k := |ts| - 1;
    PickUnique(ts, FCFS, k);
    PickedTwice(ts, FCFS, k, d);
    NeverPicked(ts, FCFS, k, d);
    assert Reversed(ts)[1] == ts[k - 1];
  }

  // ----- SJF is optimal -----

  function TotalBurst(s: seq<Task>): int {
    if s == [] then 0 else TotalBurst(s[..|s| - 1]) + s[|s| - 1].burst
  }

  /** Each task waits for the bursts of all tasks that run before it. */
  function TotalWait(s: seq<Task>): int {
    if s == [] then 0 else TotalWait(s[..|s| - 1]) + TotalBurst(s[..|s| - 1])
  }

  /** Running task `m` first makes each of the others wait for it. */
  lemma {:induction false} WaitBehind(m: Task, s: seq<Task>)
    ensures TotalBurst([m] + s) == m.burst + TotalBurst(s)
    ensures TotalWait([m] + s) == TotalWait(s) + |s| * m.burst
  {
    if s == [] {
      assert [m] + s == [m] && [m][..0] == [];
    } else {
      var n := |s| - 1;
      WaitBehind(m, s[..n]);
      assert ([m] + s)[..n + 1] == [m] + s[..n];
      assert |s| * m.burst == n * m.burst + m.burst;
    }
  }

  /** Moving a shortest task to the front does not increase the total waiting time. */
  lemma {:induction false} MoveToFront(a: seq<Task>, m: Task, b: seq<Task>)
    requires forall t :: t in a ==> m.burst <= t.burst
    ensures TotalBurst([m] + a + b) == TotalBurst(a + [m] + b)
    ensures TotalWait([m] + a + b) <= TotalWait(a + [m] + b)
    decreases |b|
  {
    if b == [] {
      assert [m] + a + b == [m] + a && a + [m] + b == a + [m] && (a + [m])[..|a|] == a;
      WaitBehind(m, a);
      LeastTimesCount(a, m);
    } else {
      var n := |b| - 1;
      MoveToFront(a, m, b[..n]);
      assert ([m] + a + b)[..1 + |a| + n] == [m] + a + b[..n];
      assert (a + [m] + b)[..1 + |a| + n] == a + [m] + b[..n];
    }
  }

  lemma {:induction false} LeastTimesCount(a: seq<Task>, m: Task)
    requires forall t :: t in a ==> m.burst <= t.burst
    ensures |a| * m.burst <= TotalBurst(a)
  {
    if a != [] {
      var n := |a| - 1;
      LeastTimesCount(a[..n], m);
      assert a[n] in a && |a| * m.burst == n * m.burst + m.burst;
    }
  }

  /** The head of `s` taken out of a permutation of `s`. */
  lemma OthersAgree(m: Task, rest: seq<Task>, a: seq<Task>, b: seq<Task>)
    requires multiset([m] + rest) == multiset(a + [m] + b)
    ensures multiset(a + b) == multiset(rest) && |a + b| == |rest|
  {
    assert multiset(rest) == multiset([m] + rest) - multiset{m};
    assert multiset(a + b) == multiset(a + [m] + b) - multiset{m};
    assert |multiset(a + b)| == |a + b| && |multiset(rest)| == |rest|;
  }

  lemma TakeOut(s: seq<Task>, other: seq<Task>) returns (a: seq<Task>, b: seq<Task>)
    requires s != [] && multiset(s) == multiset(other)
    ensures other == a + [s[0]] + b && multiset(a + b) == multiset(s[1..]) && |a + b| == |s[1..]|
    ensures forall t :: t in a ==> t in s
  {
    assert s[0] in multiset(other);
    var k :| 0 <= k < |other| && other[k] == s[0];
    a, b := other[..k], other[k + 1..];
    assert s == [s[0]] + s[1..] && other == a + [s[0]] + b;
    OthersAgree(s[0], s[1..], a, b);
    forall t | t in a
      ensures t in s
    {
      assert t in other;
      assert t in multiset(s);
    }
  }

  lemma FrontComparison(m: Task, rest: seq<Task>, a: seq<Task>, b: seq<Task>)
    requires |rest| == |a + b| && TotalWait(rest) <= TotalWait(a + b)
    requires forall t :: t in a ==> m.burst <= t.burst
    ensures TotalWait([m] + rest) <= TotalWait(a + [m] + b)
  {
    WaitBehind(m, rest);
    WaitBehind(m, a + b);
    MoveToFront(a, m, b);
    assert [m] + a + b == [m] + (a + b);
  }

  /** Sorted by burst, the tasks wait no longer in total than in any other order. */
  lemma {:induction false} SortedWaitsLeast(s: seq<Task>, other: seq<Task>)
    requires multiset(s) == multiset(other)
    requires forall i, j :: 0 <= i < j < |s| ==> s[i].burst <= s[j].burst
    ensures TotalWait(s) <= TotalWait(other)
    decreases |s|
  {
    if s == [] {
      assert |other| == |multiset(other)| == 0;
    } else {
      var a, b := TakeOut(s, other);
      SortedWaitsLeast(s[1..], a + b);
      assert s == [s[0]] + s[1..];
      FrontComparison(s[0], s[1..], a, b);
    }
  }

  /** When no two tasks share a name, or those that do differ as `Compatible` asks, the order in which
    * SJF runs the tasks has the least total waiting time among all orders of the same tasks. */
  lemma SjfWaitsLeast(ts: seq<Task>, other: seq<Task>)
    requires DistinctTasks(ts) && Compatible(ts, SJF) && multiset(other) == multiset(ts)
    ensures TotalWait(Order(ts, SJF)) <= TotalWait(other)
  {
    var s := Order(ts, SJF);
    OrderIsStableSortIff(ts, SJF);
    forall i, j | 0 <= i < j < |s|
      ensures s[i].burst <= s[j].burst
    {
      assert Ahead(ts, s[i], s[j], SJF);
    }
    SortedWaitsLeast(s, other);
  }

  /** The order of SJF is an order of the tasks, with the least total waiting time among all of them,
    * exactly when names repeat compatibly. */
  lemma {:induction false} SjfWaitsLeastIff(ts: seq<Task>)
    requires DistinctTasks(ts)
    ensures Compatible(ts, SJF) <==>
      && multiset(Order(ts, SJF)) == multiset(ts)
      && forall other: seq<Task> :: multiset(other) == multiset(ts) ==> TotalWait(Order(ts, SJF)) <= TotalWait(other)
  {
    RunsEachOnceIff(ts, SJF);
    if Compatible(ts, SJF) {
      forall other: seq<Task> | multiset(other) == multiset(ts)
        ensures TotalWait(Order(ts, SJF)) <= TotalWait(other)
      {
        SjfWaitsLeast(ts, other);
      }
    }
  }
}
