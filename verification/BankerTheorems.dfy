/** What the banker guarantees over single calls and over whole runs. */
module BankerTheorems {
  import opened BankerModel
  import opened DistinctSeqs

  /** All there is of resource `j`: what is available and what the customers hold. */
  ghost function Total(s: State, j: nat): int
    requires Shaped(s) && j < |s.available|
  {
    Work(s, Below(|s.allocation|), j)
  }

  ghost predicate Same(s: State, s': State)
    requires Shaped(s) && Shaped(s')
  {
    && |s'.available| == |s.available|
    && |s'.allocation| == |s.allocation|
  }

  // ----- one customer's row changes -----

  /** Work after the row of customer `c` and the available amount of resource `j` have changed. */
  lemma WorkOfUpdate(s: State, s': State, c: nat, who: set<nat>, j: nat)
    requires Shaped(s) && Shaped(s') && Same(s, s') && c < |s.allocation| && j < |s.available|
    requires s'.allocation == s.allocation[c := s'.allocation[c]]
    ensures Work(s', who, j) == Work(s, who, j) + (s'.available[j] - s.available[j])
            + if c in who then s'.allocation[c][j] - s.allocation[c][j] else 0
  {
    HeldUpdate(s.allocation, c, s'.allocation[c], who, j, |s.allocation|);
  }

  /** If granting a request leads to a safe state, the state was safe before. */
  lemma SafeBeforeGrant(s: State, c: nat, request: seq<int>)
    requires Shaped(s) && c < |s.allocation| && |request| == |s.available|
    requires forall j :: 0 <= j < |request| ==> 0 <= request[j]
    requires Safe(Granted(s, c, request, 0, |request|))
    ensures Safe(s)
  {
    var s' := Granted(s, c, request, 0, |request|);
    var order :| |order| == |s'.allocation| && Completes(s', order);
    forall i | 0 <= i < |order|
      ensures CanFinish(s, order[i], Elems(order[..i]))
    {
      var before := Elems(order[..i]);
      assert CanFinish(s', order[i], before);
      forall j | 0 <= j < |s.available|
        ensures s.need[order[i]][j] <= Work(s, before, j)
      {
        WorkOfUpdate(s, s', c, before, j);
        assert order[i] == c ==> c !in before;
        assert s'.need[order[i]][j] <= Work(s', before, j);
      }
    }
    assert Completes(s, order);
  }

  /** An accepted release keeps every order of completion. */
  lemma CompletesAfterReturn(s: State, c: nat, release: seq<int>, order: seq<nat>)
    requires Shaped(s) && c < |s.allocation| && |release| == |s.available|
    requires forall j :: 0 <= j < |release| ==> 0 <= release[j]
    requires Completes(s, order)
    ensures Completes(Returned(s, c, release, |release|), order)
  {
    var s' := Returned(s, c, release, |release|);
    forall i | 0 <= i < |order|
      ensures CanFinish(s', order[i], Elems(order[..i]))
    {
      var before := Elems(order[..i]);
      assert CanFinish(s, order[i], before);
      forall j | 0 <= j < |s.available|
        ensures s'.need[order[i]][j] <= Work(s', before, j)
      {
        WorkOfUpdate(s, s', c, before, j);
        assert s.need[order[i]][j] <= Work(s, before, j);
      }
    }
  }

  lemma SafeAfterReturn(s: State, c: nat, release: seq<int>)
    requires Shaped(s) && c < |s.allocation| && |release| == |s.available| && Safe(s)
    requires forall j :: 0 <= j < |release| ==> 0 <= release[j]
    ensures Safe(Returned(s, c, release, |release|))
  {
    var order :| |order| == |s.allocation| && Completes(s, order);
    CompletesAfterReturn(s, c, release, order);
  }

  /** Handing out and giving back conserve every resource. */
  lemma TotalsKept(s: State, c: nat, amount: seq<int>)
    requires Shaped(s) && c < |s.allocation| && |amount| == |s.available|
    ensures forall j :: 0 <= j < |amount| ==>
      && Total(Granted(s, c, amount, 0, |amount|), j) == Total(s, j)
      && Total(Returned(s, c, amount, |amount|), j) == Total(s, j)
  {
    forall j | 0 <= j < |amount|
      ensures Total(Granted(s, c, amount, 0, |amount|), j) == Total(s, j)
      ensures Total(Returned(s, c, amount, |amount|), j) == Total(s, j)
    {
      WorkOfUpdate(s, Granted(s, c, amount, 0, |amount|), c, Below(|s.allocation|), j);
      WorkOfUpdate(s, Returned(s, c, amount, |amount|), c, Below(|s.allocation|), j);
    }
  }

  /** `work` in is_safe never exceeds the total of a resource. */
  lemma WorkBounded(s: State, who: set<nat>, j: nat)
    requires Shaped(s) && NonNegative(s.allocation) && j < |s.available|
    requires forall c :: c in who ==> c < |s.allocation|
    ensures s.available[j] <= Work(s, who, j) <= Total(s, j)
  {
    HeldMonotone(s.allocation, who, Below(|s.allocation|), j, |s.allocation|);
  }

  // ----- rejected releases -----

  /** The rollback of a rejected release does no harm: it has nothing to undo, or only zeros. */
  ghost predicate Harmless(s: State, c: nat, release: seq<int>, stray: int)
    requires Shaped(s) && c < |s.allocation| && |release| == |s.available|
  {
    forall k: nat :: ReleaseStops(s, c, release, k) ==> k == 0 || (release[k - 1] == 0 && stray == 0)
  }

  /** A rejected release leaves the state as it was exactly when its rollback is harmless. */
  lemma RejectedReleaseRestores(s: State, c: nat, release: seq<int>, stray: int, k: nat)
    requires Shaped(s) && c < |s.allocation| && |release| == |s.available| && ReleaseStops(s, c, release, k)
    ensures BadlyRolledBack(s, c, release, k, stray) == s <==> Harmless(s, c, release, stray)
  {
    if k > 0 {
      var r := BadlyRolledBack(s, c, release, k, stray);
      var row := s.allocation[c];
      assert r.allocation[c][k - 1] == row[k - 1] - release[k - 1];
      if release[k - 1] == 0 && stray == 0 {
        assert row[k - 1 := row[k - 1] - release[k - 1]] == row;
        assert s.allocation[c := row] == s.allocation;
        if c > 0 {
          var above := s.allocation[c - 1];
          assert above[|above| - 1 := above[|above| - 1] + stray] == above;
        }
      } else if c > 0 {
        assert r.allocation[c - 1][|row| - 1] == s.allocation[c - 1][|row| - 1] + stray;
      }
    }
  }

  /** A caller cannot see the stray word: the state is as it was whatever that is only when nothing had
    * been returned before the rejection. */
  lemma {:induction false} RestoredForAllStrays(s: State, c: nat, release: seq<int>, k: nat)
    requires Shaped(s) && c < |s.allocation| && |release| == |s.available| && ReleaseStops(s, c, release, k)
    ensures (forall stray :: BadlyRolledBack(s, c, release, k, stray) == s) <==> k == 0
  {
    if k > 0 {
      RejectedReleaseRestores(s, c, release, 1, k);
      assert BadlyRolledBack(s, c, release, k, 1) != s;
    }
  }

  /** What the rollback of a release rejected at resource k does to the total of each resource: the one
    * before k loses what was offered, and unless the customer is the first the last one gains the stray word. */
  lemma {:induction false} RejectedReleaseTotals(s: State, c: nat, release: seq<int>, stray: int, k: nat, j: nat)
    requires Shaped(s) && c < |s.allocation| && |release| == |s.available| && j < |s.available|
    requires ReleaseStops(s, c, release, k) && k > 0
    ensures Total(BadlyRolledBack(s, c, release, k, stray), j) == Total(s, j)
      - (if j == k - 1 then release[k - 1] else 0) + (if c > 0 && j == |release| - 1 then stray else 0)
  {
    var row := s.allocation[c];
    var mid := s.(allocation := s.allocation[c := row[k - 1 := row[k - 1] - release[k - 1]]]);
    WorkOfUpdate(s, mid, c, Below(|s.allocation|), j);
    if c > 0 {
      WorkOfUpdate(mid, AddBefore(mid, c, stray), c - 1, Below(|s.allocation|), j);
    }
  }

  /** A release rejected at resource k > 0 conserves the resources exactly when nothing was offered of the
    * one before, and the stray word is zero or falls outside the matrix. */
  lemma {:induction false} RejectedReleaseConservesIff(s: State, c: nat, release: seq<int>, stray: int, k: nat)
    requires Shaped(s) && c < |s.allocation| && |release| == |s.available|
    requires ReleaseStops(s, c, release, k) && k > 0
    ensures (forall j :: 0 <= j < |s.available| ==> Total(BadlyRolledBack(s, c, release, k, stray), j) == Total(s, j))
      <==> release[k - 1] == 0 && (c == 0 || stray == 0)
  {
    forall j | 0 <= j < |s.available|
      ensures Total(BadlyRolledBack(s, c, release, k, stray), j) == Total(s, j)
        - (if j == k - 1 then release[k - 1] else 0) + (if c > 0 && j == |release| - 1 then stray else 0)
    {
      RejectedReleaseTotals(s, c, release, stray, k, j);
    }
    var last := |release| - 1;
    assert k - 1 < last;
    assert Total(BadlyRolledBack(s, c, release, k, stray), k - 1) == Total(s, k - 1) - release[k - 1];
    assert Total(BadlyRolledBack(s, c, release, k, stray), last) == Total(s, last) + if c > 0 then stray else 0;
  }

  /** What a release rejected at resource k > 0 took from the customer is lost for good. */
  lemma RejectedReleaseLoses(s: State, c: nat, release: seq<int>, stray: int, k: nat)
    requires Shaped(s) && c < |s.allocation| && |release| == |s.available|
    requires ReleaseStops(s, c, release, k) && k > 0
    ensures Total(BadlyRolledBack(s, c, release, k, stray), k - 1) == Total(s, k - 1) - release[k - 1]
  {
    RejectedReleaseTotals(s, c, release, stray, k, k - 1);
  }

  /** Customer 0 holds the one unit of resource 0 that customer 1 needs. */
  ghost function OneUnit(held: int): (s: State)
    ensures Shaped(s)
  {
    State([0, 0], [[held, 0], [0, 0]], [[0, 0], [1, 0]], 0)
  }

  lemma OneUnitLost()
    ensures Release(OneUnit(1), 0, [1, 1], 0, -1, OneUnit(0))
  {
    var s, s' := OneUnit(1), OneUnit(0);
    assert ReleaseStops(s, 0, [1, 1], 1);
    var row := s.allocation[0];
    assert row[0 := row[0] - 1] == [0, 0];
    assert s.allocation[0 := [0, 0]] == s'.allocation;
    assert BadlyRolledBack(s, 0, [1, 1], 1, 0) == s';
  }

  lemma OneUnitSafe()
    ensures Safe(OneUnit(1))
  {
    var s, order: seq<nat> := OneUnit(1), [0, 1];
    assert order[..0] == [] && order[..1] == [0];
    HeldByNobody(s);
    Finished(s, [], 0);
    assert [] + [0] == order[..1];
    assert CanFinish(s, 0, Elems(order[..0])) && CanFinish(s, 1, Elems(order[..1]));
    assert Completes(s, order);
  }

  lemma NoUnitUnsafe()
    ensures !Safe(OneUnit(0))
  {
    var s := OneUnit(0);
    HeldByNobody(s);
    Finished(s, [], 0);
    assert [] + [0] == [0];
    assert Work(s, Elems([0]), 0) == 0;
    assert forall c: nat :: c < 2 && c !in [0] ==> !CanFinish(s, c, Elems([0]));
    StuckMeansUnsafe(s, [0]);
  }

  /** Customer 0 offers it back together with a unit of resource 1 that it does not hold. The call is
    * turned down, the unit of resource 0 is gone, and the state, safe before, is unsafe. */
  lemma RejectedReleaseExample()
    ensures Release(OneUnit(1), 0, [1, 1], 0, -1, OneUnit(0))
    ensures Safe(OneUnit(1)) && !Safe(OneUnit(0))
  {
    OneUnitLost();
    OneUnitSafe();
    NoUnitUnsafe();
  }

  // ----- whole runs -----

  datatype Call = RQ(customer: int, amount: seq<int>) | RL(customer: int, amount: seq<int>, stray: int)

  ghost predicate Step(s: State, call: Call, code: int, s': State)
    requires Shaped(s)
  {
    && |call.amount| == |s.available|
    && match call
       case RQ(customer, amount) => Request(s, customer, amount, code, s')
       case RL(customer, amount, stray) => Release(s, customer, amount, stray, code, s')
  }

  /** The call is not a release whose rollback does harm. */
  ghost predicate Clean(s: State, call: Call)
    requires Shaped(s) && |call.amount| == |s.available|
  {
    call.RL? && 0 <= call.customer < |s.allocation| ==> Harmless(s, call.customer, call.amount, call.stray)
  }

  /** init: nothing is allocated, and the need of every customer is its maximum. */
  ghost predicate Initial(s: State) {
    Shaped(s) && forall c, j :: 0 <= c < |s.allocation| && 0 <= j < |s.available| ==> s.allocation[c][j] == 0
  }

  ghost predicate Run(states: seq<State>, calls: seq<Call>, codes: seq<int>) {
    && |states| == |calls| + 1 == |codes| + 1
    && (forall i :: 0 <= i < |states| ==> Shaped(states[i]))
    && (forall i, j :: 0 <= i && j == i + 1 < |states| ==>
          Step(states[i], calls[i], codes[i], states[j]) && Clean(states[i], calls[i]))
  }

  /** What holds in every state `s` of a run that starts in `s0`. */
  ghost predicate Inv(s0: State, s: State)
    requires Shaped(s0) && Shaped(s)
  {
    && Same(s0, s) && NonNegative(s.allocation)
    && (forall j :: 0 <= j < |s.available| ==> Total(s, j) == s0.available[j])
    && (forall c, j :: 0 <= c < |s.need| && 0 <= j < |s.available| ==>
          s.allocation[c][j] + s.need[c][j] <= s0.need[c][j])
    && (if Safe(s0) then Safe(s) else s == s0)
  }

  lemma InitialInv(s0: State)
    requires Initial(s0)
    ensures Inv(s0, s0)
  {
    forall j | 0 <= j < |s0.available|
      ensures Total(s0, j) == s0.available[j]
    {
      HeldZero(s0.allocation, Below(|s0.allocation|), j, |s0.allocation|);
    }
  }

  lemma {:induction false} HeldZero(a: seq<seq<int>>, who: set<nat>, j: nat, k: nat)
    requires k <= |a| && forall c :: 0 <= c < k ==> j < |a[c]| && a[c][j] == 0
    ensures Held(a, who, j, k) == 0
  {
    if k > 0 { HeldZero(a, who, j, k - 1); }
  }

  lemma GrantKeepsInv(s0: State, s: State, c: nat, request: seq<int>)
    requires Initial(s0) && Shaped(s) && Inv(s0, s) && c < |s.allocation| && |request| == |s.available|
    requires forall j :: 0 <= j < |request| ==> InRange(s, c, request, j)
    requires Safe(Granted(s, c, request, 0, |request|))
    ensures Safe(s0) && Inv(s0, Granted(s, c, request, 0, |request|))
  {
    forall j | 0 <= j < |request|
      ensures 0 <= request[j]
    {
      assert InRange(s, c, request, j);
    }
    SafeBeforeGrant(s, c, request);
    TotalsKept(s, c, request);
    GrantedNonNegative(s, c, request);
    var s' := Granted(s, c, request, 0, |request|);
    forall d, j | 0 <= d < |s'.need| && 0 <= j < |s'.available|
      ensures s'.allocation[d][j] + s'.need[d][j] <= s0.need[d][j]
    {
      assert s.allocation[d][j] + s.need[d][j] <= s0.need[d][j];
    }
  }

  lemma ReturnedFromNobody(s: State, c: nat, release: seq<int>)
    requires Shaped(s) && c < |s.allocation| && |release| == |s.available|
    requires forall j :: 0 <= j < |release| ==> release[j] == 0
    ensures Returned(s, c, release, |release|) == s
  {
    var s' := Returned(s, c, release, |release|);
    assert s'.available == s.available && s'.allocation[c] == s.allocation[c];
    assert s'.allocation == s.allocation;
  }

  lemma ReturnKeepsInv(s0: State, s: State, c: nat, release: seq<int>)
    requires Initial(s0) && Shaped(s) && Inv(s0, s) && c < |s.allocation| && |release| == |s.available|
    requires forall j :: 0 <= j < |release| ==> 0 <= release[j] <= s.allocation[c][j]
    ensures Inv(s0, Returned(s, c, release, |release|))
  {
    var s' := Returned(s, c, release, |release|);
    TotalsKept(s, c, release);
    if Safe(s0) {
      SafeAfterReturn(s, c, release);
    } else {
      ReturnedFromNobody(s, c, release);
    }
    forall d, j | 0 <= d < |s'.need| && 0 <= j < |s'.available|
      ensures 0 <= s'.allocation[d][j] && s'.allocation[d][j] + s'.need[d][j] <= s0.need[d][j]
    {
      assert 0 <= s.allocation[d][j] && s.allocation[d][j] + s.need[d][j] <= s0.need[d][j];
    }
  }

  lemma StepKeepsInv(s0: State, s: State, call: Call, code: int, s': State)
    requires Initial(s0) && Shaped(s) && Inv(s0, s) && Step(s, call, code, s') && Clean(s, call)
    ensures Shaped(s') && Inv(s0, s')
    ensures call.RQ? && code == 0 ==> Safe(s0)
  {
    if 0 <= call.customer < |s.allocation| {
      var c: nat := call.customer;
      match call
      case RQ(_, request) =>
        if code == 0 && !exists k: nat :: RequestStops(s, c, request, k) {
          NoStopMeansInRange(s, c, request, |request|);
          GrantKeepsInv(s0, s, c, request);
        }
      case RL(_, release, stray) =>
        if exists k: nat :: ReleaseStops(s, c, release, k) {
          var k: nat :| ReleaseStops(s, c, release, k) && s' == BadlyRolledBack(s, c, release, k, stray);
          RejectedReleaseRestores(s, c, release, stray, k);
        } else {
          NoStopMeansHeld(s, c, release, |release|);
          ReturnKeepsInv(s0, s, c, release);
        }
    }
  }

  lemma {:induction false} NoStopMeansInRange(s: State, c: nat, request: seq<int>, i: nat)
    requires Shaped(s) && c < |s.need| && i <= |request| == |s.available|
    requires forall k: nat :: !RequestStops(s, c, request, k)
    ensures forall j :: 0 <= j < i ==> InRange(s, c, request, j)
  {
    if i > 0 {
      NoStopMeansInRange(s, c, request, i - 1);
      assert !RequestStops(s, c, request, i - 1);
    }
  }

  lemma {:induction false} NoStopMeansHeld(s: State, c: nat, release: seq<int>, i: nat)
    requires Shaped(s) && c < |s.need| && i <= |release| == |s.available|
    requires forall k: nat :: !ReleaseStops(s, c, release, k)
    ensures forall j :: 0 <= j < i ==> 0 <= release[j] <= s.allocation[c][j]
  {
    if i > 0 {
      NoStopMeansHeld(s, c, release, i - 1);
      assert !ReleaseStops(s, c, release, i - 1);
    }
  }

  /** In every state of every run: each resource is conserved, no customer holds and needs more than
    * its maximum, and the state is safe if the initial one was; if it was not, nothing ever changes. */
  lemma {:induction false} RunKeepsInv(states: seq<State>, calls: seq<Call>, codes: seq<int>, i: nat)
    requires Run(states, calls, codes) && Initial(states[0]) && i < |states|
    ensures Inv(states[0], states[i])
  {
    if i == 0 {
      InitialInv(states[0]);
    } else {
      RunKeepsInv(states, calls, codes, i - 1);
      StepKeepsInv(states[0], states[i - 1], calls[i - 1], codes[i - 1], states[i]);
    }
  }

  /** From an unsafe initial state no request is ever granted. */
  lemma UnsafeStartGrantsNothing(states: seq<State>, calls: seq<Call>, codes: seq<int>, i: nat)
    requires Run(states, calls, codes) && Initial(states[0]) && !Safe(states[0]) && i < |calls|
    ensures calls[i].RQ? ==> codes[i] != 0
    ensures states[i + 1] == states[0]
  {
    RunKeepsInv(states, calls, codes, i);
    RunKeepsInv(states, calls, codes, i + 1);
    StepKeepsInv(states[0], states[i], calls[i], codes[i], states[i + 1]);
  }

  /** No amount is negative. */
  ghost predicate Proper(s: State)
    requires Shaped(s)
  {
    NonNegative(s.allocation) && NonNegative(s.need) && forall j :: 0 <= j < |s.available| ==> 0 <= s.available[j]
  }

  lemma StepKeepsProper(s: State, call: Call, code: int, s': State)
    requires Shaped(s) && Proper(s) && Step(s, call, code, s') && Clean(s, call)
    ensures Shaped(s') && Proper(s')
  {
    if 0 <= call.customer < |s.allocation| {
      var c: nat := call.customer;
      match call
      case RQ(_, request) =>
        if code == 0 && !exists k: nat :: RequestStops(s, c, request, k) {
          NoStopMeansInRange(s, c, request, |request|);
          GrantedProper(s, c, request);
        }
      case RL(_, release, stray) =>
        if exists k: nat :: ReleaseStops(s, c, release, k) {
          var k: nat :| ReleaseStops(s, c, release, k) && s' == BadlyRolledBack(s, c, release, k, stray);
          RejectedReleaseRestores(s, c, release, stray, k);
        } else {
          NoStopMeansHeld(s, c, release, |release|);
          ReturnedProper(s, c, release);
        }
    }
  }

  lemma GrantedProper(s: State, c: nat, request: seq<int>)
    requires Shaped(s) && Proper(s) && c < |s.allocation| && |request| == |s.available|
    requires forall j :: 0 <= j < |request| ==> InRange(s, c, request, j)
    ensures Proper(Granted(s, c, request, 0, |request|))
  {
    var s' := Granted(s, c, request, 0, |request|);
    GrantedNonNegative(s, c, request);
    forall d, j | 0 <= d < |s.need| && 0 <= j < |s.available|
      ensures 0 <= s'.need[d][j]
    {
      assert InRange(s, c, request, j) && 0 <= s.need[d][j];
    }
    forall j | 0 <= j < |s.available|
      ensures 0 <= s'.available[j]
    {
      assert InRange(s, c, request, j);
    }
  }

  lemma ReturnedProper(s: State, c: nat, release: seq<int>)
    requires Shaped(s) && Proper(s) && c < |s.allocation| && |release| == |s.available|
    requires forall j :: 0 <= j < |release| ==> 0 <= release[j] <= s.allocation[c][j]
    ensures Proper(Returned(s, c, release, |release|))
  {
    var s' := Returned(s, c, release, |release|);
    forall d, j | 0 <= d < |s.need| && 0 <= j < |s.available|
      ensures 0 <= s'.allocation[d][j]
    {
      assert 0 <= s.allocation[d][j] && 0 <= release[j];
    }
    forall j | 0 <= j < |s.available|
      ensures 0 <= s'.available[j]
    {
      assert 0 <= s.available[j] && 0 <= release[j];
    }
  }

  /** With proper initial amounts every amount, and every sum that is_safe forms, stays between 0 and
    * the initially available amount: the C code's `int` arithmetic does not overflow. */
  lemma {:induction false} RunInBounds(states: seq<State>, calls: seq<Call>, codes: seq<int>, i: nat, who: set<nat>, j: nat)
    requires Run(states, calls, codes) && Initial(states[0]) && Proper(states[0]) && i < |states|
    requires j < |states[i].available| && forall c :: c in who ==> c < |states[i].allocation|
    ensures Proper(states[i]) && j < |states[0].available|
    ensures states[i].available[j] <= Work(states[i], who, j) <= states[0].available[j]
  {
    RunKeepsProper(states, calls, codes, i);
    RunKeepsInv(states, calls, codes, i);
    WorkBounded(states[i], who, j);
  }

  lemma {:induction false} RunKeepsProper(states: seq<State>, calls: seq<Call>, codes: seq<int>, i: nat)
    requires Run(states, calls, codes) && Proper(states[0]) && i < |states|
    ensures Proper(states[i])
  {
    if i > 0 {
      RunKeepsProper(states, calls, codes, i - 1);
      StepKeepsProper(states[i - 1], calls[i - 1], codes[i - 1], states[i]);
    }
  }

  // ----- a safe state can be run to its end -----

  /** Customer `c` needs nothing more and holds nothing. */
  ghost predicate Idle(s: State, c: nat)
    requires Shaped(s) && c < |s.allocation|
  {
    forall j :: 0 <= j < |s.available| ==> s.need[c][j] == 0 && s.allocation[c][j] == 0
  }

  lemma {:induction false} HeldByIdle(s: State, who: set<nat>, j: nat, k: nat)
    requires Shaped(s) && j < |s.available| && k <= |s.allocation|
    requires forall c :: c in who && c < |s.allocation| ==> Idle(s, c)
    ensures Held(s.allocation, who, j, k) == 0
  {
    if k > 0 {
      HeldByIdle(s, who, j, k - 1);
      assert k - 1 in who ==> Idle(s, k - 1);
    }
  }

  /** The next customer of a safe order, when all before it are idle, is granted its whole need. */
  lemma NextIsGranted(s: State, order: seq<nat>, i: nat) returns (s': State)
    requires Shaped(s) && Proper(s) && |order| == |s.allocation| && Completes(s, order) && i < |order|
    requires forall k :: 0 <= k < i ==> Idle(s, order[k])
    ensures s' == Granted(s, order[i], s.need[order[i]], 0, |s.available|)
    ensures Request(s, order[i], s.need[order[i]], 0, s') && Proper(s') && Completes(s', order)
  {
    var c, request := order[i], s.need[order[i]];
    s' := Granted(s, c, request, 0, |s.available|);
    var before := Elems(order[..i]);
    assert CanFinish(s, c, before);
    forall j | 0 <= j < |s.available|
      ensures InRange(s, c, request, j)
    {
      HeldByIdle(s, before, j, |s.allocation|);
    }
    GrantedProper(s, c, request);
    GrantedNonNegative(s, c, request);
    forall k | 0 <= k < |order|
      ensures CanFinish(s', order[k], Elems(order[..k]))
    {
      var earlier := Elems(order[..k]);
      assert CanFinish(s, order[k], earlier);
      forall j | 0 <= j < |s.available|
        ensures s'.need[order[k]][j] <= Work(s', earlier, j)
      {
        WorkOfUpdate(s, s', c, earlier, j);
        assert s.need[order[k]][j] <= Work(s, earlier, j);
        if k <= i {
          HeldByIdle(s, earlier, j, |s.allocation|);
          assert k < i ==> Idle(s, order[k]);
          assert c !in earlier && InRange(s, c, request, j);
        } else {
          assert order[..k][i] == c;
        }
      }
    }
    assert Completes(s', order);
  }

  /** It then gives back all it holds and is idle, and the order still completes. */
  lemma ThenReturnsAll(s: State, order: seq<nat>, i: nat) returns (s': State)
    requires Shaped(s) && Proper(s) && |order| == |s.allocation| && Completes(s, order) && i < |order|
    requires forall k :: 0 <= k < i ==> Idle(s, order[k])
    requires forall j :: 0 <= j < |s.available| ==> s.need[order[i]][j] == 0
    ensures s' == Returned(s, order[i], s.allocation[order[i]], |s.available|)
    ensures forall stray :: Release(s, order[i], s.allocation[order[i]], stray, 0, s')
    ensures Proper(s') && Completes(s', order)
    ensures forall k :: 0 <= k <= i ==> Idle(s', order[k])
  {
    var c := order[i];
    s' := Returned(s, c, s.allocation[c], |s.available|);
    ReturnedProper(s, c, s.allocation[c]);
    CompletesAfterReturn(s, c, s.allocation[c], order);
    forall k | 0 <= k <= i
      ensures Idle(s', order[k])
    {
      assert k < i ==> Idle(s, order[k]);
    }
  }

  /** `calls`, all accepted, lead from the first to the last of `states`. */
  ghost predicate Accepted(states: seq<State>, calls: seq<Call>) {
    && |states| == |calls| + 1
    && (forall i :: 0 <= i < |states| ==> Shaped(states[i]))
    && (forall i, j :: 0 <= i && j == i + 1 < |states| ==> Step(states[i], calls[i], 0, states[j]))
  }

  lemma StepOfConcat(a: seq<State>, x: seq<Call>, b: seq<State>, y: seq<Call>, i: nat, j: nat)
    requires Accepted(a, x) && Accepted(b, y) && a[|a| - 1] == b[0] && j == i + 1 < |a| + |b| - 1
    ensures var states, calls := a + b[1..], x + y;
      Shaped(states[i]) && Step(states[i], calls[i], 0, states[j])
  {
    var states, calls, n := a + b[1..], x + y, |x|;
    if i < n {
      assert states[i] == a[i] && states[j] == a[j] && calls[i] == x[i];
      assert Step(a[i], x[i], 0, a[j]);
    } else {
      assert states[i] == b[i - n] && states[j] == b[j - n] && calls[i] == y[i - n];
      assert Step(b[i - n], y[i - n], 0, b[j - n]);
    }
  }

  lemma AcceptedConcat(a: seq<State>, x: seq<Call>, b: seq<State>, y: seq<Call>)
    requires Accepted(a, x) && Accepted(b, y) && a[|a| - 1] == b[0]
    ensures Accepted(a + b[1..], x + y)
  {
    var states, calls := a + b[1..], x + y;
    forall i, j | 0 <= i && j == i + 1 < |states|
      ensures Step(states[i], calls[i], 0, states[j])
    {
      StepOfConcat(a, x, b, y, i, j);
    }
  }

  lemma {:induction false} DrainFrom(s: State, order: seq<nat>, i: nat) returns (states: seq<State>, calls: seq<Call>)
    requires Shaped(s) && Proper(s) && |order| == |s.allocation| && Completes(s, order) && i <= |order|
    requires forall k :: 0 <= k < i ==> Idle(s, order[k])
    ensures Accepted(states, calls) && states[0] == s && Same(s, states[|calls|])
    ensures forall k :: 0 <= k < |order| ==> Idle(states[|calls|], order[k])
    decreases |order| - i
  {
    if i == |order| {
      states, calls := [s], [];
    } else {
      var c := order[i];
      var s1 := NextIsGranted(s, order, i);
      forall k | 0 <= k < i
        ensures Idle(s1, order[k])
      {
        assert Idle(s, order[k]);
      }
      var s2 := ThenReturnsAll(s1, order, i);
      states, calls := DrainFrom(s2, order, i + 1);
      var two := [RQ(c, s.need[c]), RL(c, s1.allocation[c], 0)];
      assert Accepted([s, s1, s2], two);
      AcceptedConcat([s, s1, s2], two, states, calls);
      states, calls := [s, s1, s2] + states[1..], two + calls;
    }
  }

  /** From every safe state some sequence of calls, each accepted by the code itself, takes every
    * customer to zero need and zero allocation. */
  lemma SafeStateCanBeDrained(s: State) returns (states: seq<State>, calls: seq<Call>)
    requires Shaped(s) && Proper(s) && Safe(s)
    ensures Accepted(states, calls) && states[0] == s && Same(s, states[|calls|])
    ensures forall c: nat :: c < |s.allocation| ==> Idle(states[|calls|], c)
  {
    var order :| |order| == |s.allocation| && Completes(s, order);
    DistinctCovers(order, |s.allocation|);
    states, calls := DrainFrom(s, order, 0);
    forall c: nat | c < |s.allocation|
      ensures Idle(states[|calls|], c)
    {
      assert c in order;
    }
  }
}
