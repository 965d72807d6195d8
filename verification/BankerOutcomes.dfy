/** What the banker answers to a call and what the state is then, amount by amount. */
module BankerOutcomes {
  import opened BankerModel
  import opened BankerTheorems
  import opened DistinctSeqs

  // ----- safety as a play with vectors -----

  /** The customers of `order` finish one after the other: each finds its need in `work`, to which it
    * then gives what it holds. */
  ghost predicate FinishInTurn(s: State, work: seq<int>, order: seq<nat>)
    requires Shaped(s) && |work| == |s.available|
    decreases |order|
  {
    order == [] ||
    (&& order[0] < |s.need|
     && (forall j :: 0 <= j < |work| ==> s.need[order[0]][j] <= work[j])
     && FinishInTurn(s, WorkAfter(s, work, order[0]), order[1..]))
  }

  ghost predicate Distinctly(order: seq<nat>, n: nat) {
    |order| == n && (forall i :: 0 <= i < n ==> order[i] < n) && forall i, k :: 0 <= i < k < n ==> order[i] != order[k]
  }

  function WorkAfter(s: State, work: seq<int>, c: nat): seq<int>
    requires Shaped(s) && |work| == |s.available| && c < |s.allocation|
  {
    seq(|work|, j requires 0 <= j < |work| => work[j] + s.allocation[c][j])
  }

  /** The customers of `order` can finish one after the other when those of `done` have finished. */
  ghost predicate CanGoOn(s: State, done: seq<nat>, order: seq<nat>)
    requires Shaped(s)
  {
    forall i :: 0 <= i < |order| ==> order[i] < |s.need| && CanFinish(s, order[i], Elems(done + order[..i]))
  }

  lemma {:induction false} CanGoOnStep(s: State, done: seq<nat>, order: seq<nat>)
    requires Shaped(s) && order != []
    ensures CanGoOn(s, done, order) <==>
      order[0] < |s.need| && CanFinish(s, order[0], Elems(done)) && CanGoOn(s, done + [order[0]], order[1..])
  {
    var c, rest := order[0], order[1..];
    assert done + order[..0] == done;
    forall i | 0 <= i < |rest|
      ensures done + [c] + rest[..i] == done + order[..i + 1] && rest[i] == order[i + 1]
    {
    }
    if CanGoOn(s, done, order) {
      assert CanFinish(s, order[0], Elems(done + order[..0]));
      forall i | 0 <= i < |rest|
        ensures rest[i] < |s.need| && CanFinish(s, rest[i], Elems(done + [c] + rest[..i]))
      {
        assert CanFinish(s, order[i + 1], Elems(done + order[..i + 1]));
      }
    }
    if c < |s.need| && CanFinish(s, c, Elems(done)) && CanGoOn(s, done + [c], rest) {
      forall i | 0 <= i < |order|
        ensures order[i] < |s.need| && CanFinish(s, order[i], Elems(done + order[..i]))
      {
        if i > 0 {
          assert CanFinish(s, rest[i - 1], Elems(done + [c] + rest[..i - 1]));
          assert done + [c] + rest[..i - 1] == done + order[..i];
        }
      }
    }
  }

  lemma {:induction false} FinishFrom(s: State, work: seq<int>, done: seq<nat>, order: seq<nat>)
    requires Shaped(s) && |work| == |s.available| && Distinct(done + order, |s.allocation|)
    requires forall j :: 0 <= j < |work| ==> work[j] == Work(s, Elems(done), j)
    ensures FinishInTurn(s, work, order) <==> CanGoOn(s, done, order)
    decreases |order|
  {
    if order != [] {
      var c, rest, all := order[0], order[1..], done + order;
      assert all[|done|] == c && forall i :: 0 <= i < |done| ==> all[i] == done[i];
      assert c !in done;
      Finished(s, done, c);
      assert done + [c] + rest == all;
      FinishFrom(s, WorkAfter(s, work, c), done + [c], rest);
      CanGoOnStep(s, done, order);
    }
  }

  lemma AllInTurn(s: State, order: seq<nat>)
    requires Shaped(s) && Distinctly(order, |s.allocation|)
    ensures CanGoOn(s, [], order) <==> Completes(s, order)
  {
    forall i | 0 <= i < |order|
      ensures [] + order[..i] == order[..i]
    {
    }
  }

  /** A state is safe exactly when all customers can finish one after the other in some order. */
  lemma {:induction false} SafeIffAllFinish(s: State)
    requires Shaped(s)
    ensures Safe(s) <==> exists order :: Distinctly(order, |s.allocation|) && FinishInTurn(s, s.available, order)
  {
    HeldByNobody(s);
    forall order: seq<nat> | Distinctly(order, |s.allocation|)
      ensures FinishInTurn(s, s.available, order) <==> Completes(s, order)
    {
      assert [] + order == order;
      FinishFrom(s, s.available, [], order);
      AllInTurn(s, order);
    }
    if Safe(s) {
      var order :| |order| == |s.allocation| && Completes(s, order);
      assert Distinctly(order, |s.allocation|);
    }
  }

  // ----- request_resources -----

  /** The amounts of the request have moved from the available ones to customer `c`, whose need has gone
    * down by them; all other amounts are as they were. */
  ghost predicate HandedOver(s: State, c: nat, request: seq<int>, t: State)
    requires Shaped(s) && c < |s.allocation| && |request| == |s.available|
  {
    && Shaped(t) && |t.available| == |s.available| && |t.allocation| == |s.allocation| && t.outside == s.outside
    && (forall j :: 0 <= j < |request| ==>
          && t.available[j] == s.available[j] - request[j]
          && t.allocation[c][j] == s.allocation[c][j] + request[j]
          && t.need[c][j] == s.need[c][j] - request[j])
    && (forall d :: 0 <= d < |s.allocation| && d != c ==>
          t.allocation[d] == s.allocation[d] && t.need[d] == s.need[d])
  }

  /** Resource `j` of the request is negative, more than needed, or more than available. */
  ghost predicate BadAmount(s: State, c: nat, request: seq<int>, j: nat)
    requires Shaped(s) && c < |s.need| && j < |request| == |s.available|
  {
    request[j] < 0 || request[j] > s.need[c][j] || request[j] > s.available[j]
  }

  ghost predicate FirstBad(s: State, c: nat, request: seq<int>, k: nat)
    requires Shaped(s) && c < |s.need| && |request| == |s.available|
  {
    k < |request| && BadAmount(s, c, request, k) && forall j :: 0 <= j < k ==> !BadAmount(s, c, request, j)
  }

  lemma {:induction false} GrantedHandsOver(s: State, c: nat, request: seq<int>)
    requires Shaped(s) && c < |s.allocation| && |request| == |s.available|
    ensures HandedOver(s, c, request, Granted(s, c, request, 0, |request|))
  {
  }

  lemma {:induction false} HandedOverOnce(s: State, c: nat, request: seq<int>, t: State, r: State)
    requires Shaped(s) && c < |s.allocation| && |request| == |s.available|
    requires HandedOver(s, c, request, t) && HandedOver(s, c, request, r)
    ensures t == r
  {
    assert t.available == r.available && t.allocation[c] == r.allocation[c] && t.need[c] == r.need[c];
    forall d | 0 <= d < |s.allocation|
      ensures t.allocation[d] == r.allocation[d] && t.need[d] == r.need[d]
    {
      assert d != c ==> t.allocation[d] == s.allocation[d] == r.allocation[d];
    }
    assert t.allocation == r.allocation && t.need == r.need;
  }

  lemma {:induction false} GrantedIsHandedOver(s: State, c: nat, request: seq<int>, t: State)
    requires Shaped(s) && c < |s.allocation| && |request| == |s.available|
    ensures HandedOver(s, c, request, t) <==> t == Granted(s, c, request, 0, |request|)
  {
    GrantedHandsOver(s, c, request);
    if HandedOver(s, c, request, t) { HandedOverOnce(s, c, request, t, Granted(s, c, request, 0, |request|)); }
  }

  lemma BadIsStop(s: State, c: nat, request: seq<int>, k: nat)
    requires Shaped(s) && c < |s.need| && |request| == |s.available|
    ensures FirstBad(s, c, request, k) <==> RequestStops(s, c, request, k)
  {
    assert forall j: nat :: j < |request| ==> (BadAmount(s, c, request, j) <==> !InRange(s, c, request, j));
  }

  lemma {:induction false} SomeFirstBad(s: State, c: nat, request: seq<int>, i: nat)
    requires Shaped(s) && c < |s.need| && i < |request| == |s.available| && BadAmount(s, c, request, i)
    ensures exists k: nat :: FirstBad(s, c, request, k)
  {
    if j: nat :| j < i && BadAmount(s, c, request, j) {
      SomeFirstBad(s, c, request, j);
    } else {
      assert FirstBad(s, c, request, i);
    }
  }

  /** A request is granted, with exactly its amounts, if and only if the customer exists, every amount is
    * at least 0 and at most what is needed and available, and the state with the amounts moved is safe.
    * Otherwise nothing changes. */
  lemma {:induction false} RequestOutcome(s: State, customer: int, request: seq<int>, code: int, s': State)
    requires Shaped(s) && |request| == |s.available| && Request(s, customer, request, code, s')
    ensures code == 0 <==>
      && 0 <= customer < |s.allocation|
      && (forall j :: 0 <= j < |request| ==> 0 <= request[j] <= s.need[customer][j] && request[j] <= s.available[j])
      && exists t :: HandedOver(s, customer, request, t) && Safe(t)
    ensures code == 0 ==> HandedOver(s, customer, request, s')
    ensures code != 0 ==> s' == s
  {
    if 0 <= customer < |s.allocation| {
      var c: nat := customer;
      var r := Granted(s, c, request, 0, |request|);
      GrantedIsHandedOver(s, c, request, r);
      if k: nat :| RequestStops(s, c, request, k) {
        BadIsStop(s, c, request, k);
        RequestFailsCode(s, c, request, code);
        assert BadAmount(s, c, request, k);
      } else {
        forall j | 0 <= j < |request|
          ensures 0 <= request[j] <= s.need[customer][j] && request[j] <= s.available[j]
        {
          NoneBad(s, c, request, j);
          assert !BadAmount(s, c, request, j);
        }
        SafeOnceMoved(s, c, request);
      }
    }
  }

  lemma {:induction false} SafeOnceMoved(s: State, c: nat, request: seq<int>)
    requires Shaped(s) && c < |s.allocation| && |request| == |s.available|
    ensures Safe(Granted(s, c, request, 0, |request|)) <==> exists t :: HandedOver(s, c, request, t) && Safe(t)
  {
    var r := Granted(s, c, request, 0, |request|);
    GrantedIsHandedOver(s, c, request, r);
    forall t | HandedOver(s, c, request, t)
      ensures t == r
    {
      GrantedIsHandedOver(s, c, request, t);
    }
  }

  lemma {:induction false} NoneBad(s: State, c: nat, request: seq<int>, j: nat)
    requires Shaped(s) && c < |s.need| && j < |request| == |s.available|
    requires forall k: nat :: !RequestStops(s, c, request, k)
    ensures !BadAmount(s, c, request, j)
  {
    if BadAmount(s, c, request, j) {
      SomeFirstBad(s, c, request, j);
      var k: nat :| FirstBad(s, c, request, k);
      BadIsStop(s, c, request, k);
    }
  }

  lemma {:induction false} RequestFailsCode(s: State, c: nat, request: seq<int>, code: int)
    requires Shaped(s) && c < |s.need| && |request| == |s.available| && RequestFails(s, c, request, code)
    ensures exists k: nat :: FirstBad(s, c, request, k) && code == (if request[k] > s.available[k] then -2 else -1)
  {
    var k: nat :| RequestStops(s, c, request, k) && code == if request[k] > s.available[k] then -2 else -1;
    BadIsStop(s, c, request, k);
  }

  lemma OneFirstBad(s: State, c: nat, request: seq<int>, k: nat, k': nat)
    requires Shaped(s) && c < |s.need| && |request| == |s.available|
    requires FirstBad(s, c, request, k) && FirstBad(s, c, request, k')
    ensures k == k'
  {
  }

  /** The codes of a refusal: -2 when the first bad amount is more than available, -1 for any other bad
    * amount and for a customer that does not exist, and -3 when all amounts are good but the state would
    * not be safe. */
  lemma {:induction false} RequestCodes(s: State, customer: int, request: seq<int>, code: int, s': State)
    requires Shaped(s) && |request| == |s.available| && Request(s, customer, request, code, s')
    ensures code in {0, -1, -2, -3}
    ensures code == -1 <==> (!(0 <= customer < |s.allocation|)
      || exists k: nat :: FirstBad(s, customer, request, k) && request[k] <= s.available[k])
    ensures code == -2 <==> (0 <= customer < |s.allocation|
      && exists k: nat :: FirstBad(s, customer, request, k) && request[k] > s.available[k])
    ensures code == -3 <==> (0 <= customer < |s.allocation|
      && (forall j: nat :: j < |request| ==> !BadAmount(s, customer, request, j))
      && forall t :: HandedOver(s, customer, request, t) ==> !Safe(t))
  {
    if 0 <= customer < |s.allocation| {
      var c: nat := customer;
      if exists k: nat :: RequestStops(s, c, request, k) {
        RequestFailsCode(s, c, request, code);
        var k: nat :| FirstBad(s, c, request, k) && code == if request[k] > s.available[k] then -2 else -1;
        forall k': nat | FirstBad(s, c, request, k')
          ensures k' == k
        {
          OneFirstBad(s, c, request, k, k');
        }
      } else {
        forall k: nat
          ensures !FirstBad(s, c, request, k)
        {
          BadIsStop(s, c, request, k);
        }
        RequestOutcome(s, customer, request, code, s');
        forall j: nat | j < |request|
          ensures !BadAmount(s, c, request, j)
        {
          NoneBad(s, c, request, j);
        }
        GrantedIsHandedOver(s, c, request, Granted(s, c, request, 0, |request|));
        forall t | HandedOver(s, c, request, t)
          ensures t == Granted(s, c, request, 0, |request|)
        {
          GrantedIsHandedOver(s, c, request, t);
        }
      }
    }
  }

  // ----- release_resources -----

  /** A release is accepted if and only if the customer exists and every amount is at least 0 and at most
    * what it holds; then the amounts become available, and needs stay as they are. */
  lemma {:induction false} ReleaseOutcome(s: State, customer: int, release: seq<int>, stray: int, code: int, s': State)
    requires Shaped(s) && |release| == |s.available| && Release(s, customer, release, stray, code, s')
    ensures code == 0 || code == -1
    ensures code == 0 <==>
      && 0 <= customer < |s.allocation|
      && forall j :: 0 <= j < |release| ==> 0 <= release[j] <= s.allocation[customer][j]
    ensures code == 0 ==> GivenBack(s, customer, release, s')
    ensures !(0 <= customer < |s.allocation|) ==> s' == s
  {
    if 0 <= customer < |s.allocation| {
      if exists k: nat :: ReleaseStops(s, customer, release, k) {
        var k: nat :| ReleaseStops(s, customer, release, k);
        assert !(0 <= release[k] <= s.allocation[customer][k]);
      } else {
        NoStopMeansHeld(s, customer, release, |release|);
      }
    }
  }

  ghost predicate GivenBack(s: State, c: nat, release: seq<int>, t: State)
    requires Shaped(s) && c < |s.allocation| && |release| == |s.available|
  {
    && Shaped(t) && |t.available| == |s.available| && |t.allocation| == |s.allocation|
    && t.need == s.need && t.outside == s.outside
    && (forall j :: 0 <= j < |release| ==>
          t.available[j] == s.available[j] + release[j] && t.allocation[c][j] == s.allocation[c][j] - release[j])
    && (forall d :: 0 <= d < |s.allocation| && d != c ==> t.allocation[d] == s.allocation[d])
  }

  /** A release that is turned down at resource k, the first bad one, changes nothing if k is 0. Otherwise
    * the customer loses what it offered of the resource before, and the stray word is added to the last
    * entry of the row before, or outside the matrix; available amounts and needs stay as they are. */
  lemma {:induction false} RejectedReleaseState(s: State, c: nat, release: seq<int>, stray: int, code: int, s': State, k: nat)
    requires Shaped(s) && |release| == |s.available| && c < |s.allocation| && k < |release|
    requires Release(s, c, release, stray, code, s')
    requires !(0 <= release[k] <= s.allocation[c][k])
    requires forall j :: 0 <= j < k ==> 0 <= release[j] <= s.allocation[c][j]
    ensures code == -1 && Shaped(s') && s'.available == s.available && s'.need == s.need
    ensures |s'.allocation| == |s.allocation| && (k == 0 ==> s' == s)
    ensures k > 0 ==> forall d, j :: 0 <= d < |s.allocation| && 0 <= j < |s.available| ==>
      s'.allocation[d][j] == s.allocation[d][j] - LostAt(d, j, c, k, release) + StrayAt(d, j, c, |release|, stray)
    ensures k > 0 ==> s'.outside == s.outside + if c == 0 then stray else 0
  {
    assert ReleaseStops(s, c, release, k);
    forall k': nat | ReleaseStops(s, c, release, k')
      ensures k' == k
    {
    }
    assert s' == BadlyRolledBack(s, c, release, k, stray);
  }

  function LostAt(d: int, j: int, c: int, k: int, release: seq<int>): int
    requires 0 < k < |release|
  {
    if d == c && j == k - 1 then release[k - 1] else 0
  }

  function StrayAt(d: int, j: int, c: int, n: int, stray: int): int {
    if d == c - 1 && j == n - 1 then stray else 0
  }
}
