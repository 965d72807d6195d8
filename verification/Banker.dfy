/** The banker with its arrays, updated in place and rolled back as the C code does it. */
module Banker {
  import opened BankerModel
  import opened DistinctSeqs

  class Bank {
    const customers: nat
    const resources: nat
    const available: array<int>
    const maximum: array2<int>
    const allocation: array2<int>
    const need: array2<int>
    var outside: int        // the word in front of the allocation matrix
    ghost var st: State     // the abstract state

    ghost predicate Sizes()
    {
      && available.Length == resources
      && maximum.Length0 == allocation.Length0 == need.Length0 == customers
      && maximum.Length1 == allocation.Length1 == need.Length1 == resources
      && maximum != allocation && maximum != need && allocation != need
    }

    ghost predicate Holds(s: State)
      requires Sizes()
      reads this`outside, available, allocation, need
    {
      && Shaped(s) && |s.available| == resources && |s.allocation| == customers
      && outside == s.outside
      && (forall j :: 0 <= j < resources ==> available[j] == s.available[j])
      && (forall c, j :: 0 <= c < customers && 0 <= j < resources ==> allocation[c, j] == s.allocation[c][j])
      && (forall c, j :: 0 <= c < customers && 0 <= j < resources ==> need[c, j] == s.need[c][j])
    }

    ghost predicate Valid()
      reads this, available, allocation, need
    {
      Sizes() && Holds(st)
    }

    /** init: nothing is allocated and every need is the maximum. */
    constructor (amounts: seq<int>, demands: seq<seq<int>>, outside: int)
      requires Rectangular(demands, |amounts|)
      ensures Valid() && fresh(available) && fresh(allocation) && fresh(need)
      ensures st.available == amounts && st.need == demands && NonNegative(st.allocation)
      ensures forall c, j :: 0 <= c < |demands| && 0 <= j < |amounts| ==> st.allocation[c][j] == 0
    {
      var n, m := |demands|, |amounts|;
      customers, resources := n, m;
      available := new int[m](j requires 0 <= j < m => amounts[j]);
      maximum := new int[n, m]((c, j) requires 0 <= c < n && 0 <= j < m => demands[c][j]);
      allocation := new int[n, m]((c, j) => 0);
      need := new int[n, m]((c, j) requires 0 <= c < n && 0 <= j < m => demands[c][j]);
      this.outside := outside;
      st := State(amounts, seq(n, c => seq(m, j => 0)), demands, outside);
    }

    /** is_leq(need[c], work, resources) */
    method IsLeq(c: nat, work: array<int>) returns (leq: bool)
      requires Sizes() && c < customers && work.Length == resources
      ensures leq <==> forall j :: 0 <= j < resources ==> need[c, j] <= work[j]
    {
      for i := 0 to resources
        invariant forall j :: 0 <= j < i ==> need[c, j] <= work[j]
      {
        if need[c, i] > work[i] {
          return false;
        }
      }
      return true;
    }

    /** `work` is what is available once the customers in `done` have finished, and `finish` marks them. */
    ghost predicate Progress(work: array<int>, finish: array<bool>, done: seq<nat>)
      requires Sizes() && Holds(st)
      reads this, available, allocation, need, work, finish
    {
      && work.Length == resources && finish.Length == customers
      && Completes(st, done)
      && (forall c: nat :: c < customers ==> (finish[c] <==> c in done))
      && (forall j :: 0 <= j < resources ==> work[j] == Work(st, Elems(done), j))
    }

    /** Customer `i` finishes and gives back what it holds. */
    method Finish(work: array<int>, finish: array<bool>, i: nat, ghost done: seq<nat>)
      requires Valid() && Progress(work, finish, done)
      requires i < customers && i !in done && CanFinish(st, i, Elems(done))
      requires work != available
      modifies work, finish
      ensures Valid() && Progress(work, finish, done + [i])
    {
      finish[i] := true;
      for j := 0 to resources
        invariant Valid() && finish[..] == old(finish[..])[i := true]
        invariant forall r :: 0 <= r < resources ==>
          work[r] == old(work[r]) + if r < j then st.allocation[i][r] else 0
      {
        work[j] := work[j] + allocation[i, j];
      }
      assert forall c: nat :: c < customers ==> finish[c] == finish[..][c];
      CompletesSnoc(st, done, i);
      Finished(st, done, i);
    }

    /** is_safe */
    method IsSafe() returns (safe: bool)
      requires Valid()
      ensures safe ==> Safe(st)
      ensures NonNegative(st.allocation) ==> (safe <==> Safe(st))
    {
      var work := new int[resources](j requires 0 <= j < available.Length reads available => available[j]);
      var finish := new bool[customers](_ => false);
      ghost var done: seq<nat> := [];
      HeldByNobody(st);
      for round := 0 to customers
        invariant Valid() && |done| == round && Progress(work, finish, done)
      {
        var flag := false;
        for i := 0 to customers
          invariant Valid() && Progress(work, finish, done) && !flag
          invariant forall c: nat :: c < i && c !in done ==> !CanFinish(st, c, Elems(done))
        {
          if !finish[i] {
            var leq := IsLeq(i, work);
            if leq {
              flag := true;
              Finish(work, finish, i, done);
              done := done + [i];
              break;
            }
          }
        }
        if !flag {
          if NonNegative(st.allocation) { StuckMeansUnsafe(st, done); }
          return false;
        }
      }
      return true;
    }

    /** Adds (`sign` is 1) or takes back (-1) resource `i` of a request. */
    method Hand(c: nat, request: seq<int>, i: nat, sign: int)
      requires Sizes() && c < customers && i < resources == |request|
      modifies available, allocation, need
      ensures available[i] == old(available[i]) - sign * request[i]
      ensures allocation[c, i] == old(allocation[c, i]) + sign * request[i]
      ensures need[c, i] == old(need[c, i]) - sign * request[i]
      ensures forall j :: 0 <= j < resources && j != i ==> available[j] == old(available[j])
      ensures forall d, j :: 0 <= d < customers && 0 <= j < resources && !(d == c && j == i) ==>
        allocation[d, j] == old(allocation[d, j]) && need[d, j] == old(need[d, j])
    {
      available[i] := available[i] - sign * request[i];
      allocation[c, i] := allocation[c, i] + sign * request[i];
      need[c, i] := need[c, i] - sign * request[i];
    }

    /** The rollback of a request rejected at resource `k`. */
    method TakeBack(c: nat, request: seq<int>, k: nat, ghost base: State)
      requires Sizes() && c < customers && k <= resources == |request|
      requires Shaped(base) && |base.available| == resources && |base.allocation| == customers
      requires Holds(Granted(base, c, request, 0, k))
      modifies available, allocation, need
      ensures Holds(base)
    {
      var i := k;
      while i > 0
        invariant 0 <= i <= k && Holds(Granted(base, c, request, 0, i))
      {
        i := i - 1;
        Hand(c, request, i, -1);
      }
      GrantedNothing(base, c, request);
    }

    /** The rollback of a request that leads to an unsafe state. */
    method TakeBackAll(c: nat, request: seq<int>, ghost base: State)
      requires Sizes() && c < customers && |request| == resources
      requires Shaped(base) && |base.available| == resources && |base.allocation| == customers
      requires Holds(Granted(base, c, request, 0, resources))
      modifies available, allocation, need
      ensures Holds(base)
    {
      for i := 0 to resources
        invariant Holds(Granted(base, c, request, i, resources))
      {
        Hand(c, request, i, -1);
      }
      GrantedNothing(base, c, request);
    }

    /** The first loop of request_resources: checks and hands out one resource after the other. */
    method HandOut(c: nat, request: seq<int>) returns (code: int)
      requires Valid() && c < customers && |request| == resources
      modifies available, allocation, need
      ensures code == 0 ==> Holds(Granted(st, c, request, 0, resources))
      ensures code == 0 ==> forall j :: 0 <= j < resources ==> InRange(st, c, request, j)
      ensures code != 0 ==> Holds(st) && RequestFails(st, c, request, code)
    {
      code := 0;
      GrantedNothing(st, c, request);
      for i := 0 to resources
        invariant Holds(Granted(st, c, request, 0, i)) && code == 0
        invariant forall j :: 0 <= j < i ==> InRange(st, c, request, j)
      {
        if request[i] < 0 || request[i] > need[c, i] {
          code := -1;
        }
        if request[i] > available[i] {
          code := -2;
        }
        if code != 0 {
          assert RequestStops(st, c, request, i);
          TakeBack(c, request, i, st);
          return;
        }
        Hand(c, request, i, 1);
      }
    }

    /** request_resources: 0 when granted, -1 or -2 for a bad amount, -3 for an unsafe state. */
    method RequestResources(customer: int, request: seq<int>) returns (code: int)
      requires Valid() && |request| == resources
      modifies available, allocation, need, this`st
      ensures Valid() && (NonNegative(old(st).allocation) ==> Request(old(st), customer, request, code, st))
      ensures code != 0 ==> st == old(st)
      ensures code == 0 ==> 0 <= customer < customers && Safe(st) && st == Granted(old(st), customer, request, 0, resources)
    {
      if customer < 0 || customer >= customers {
        return -1;
      }
      var c: nat := customer;
      ghost var base := st;
      code := HandOut(c, request);
      if code != 0 {
        return;
      }
      st := Granted(base, c, request, 0, resources);
      if NonNegative(base.allocation) { GrantedNonNegative(base, c, request); }
      var safe := IsSafe();
      if !safe {
        TakeBackAll(c, request, base);
        st := base;
        return -3;
      }
      return 0;
    }

    /** One turn of that rollback: the index into the allocation is one too low. */
    method RollOne(c: nat, release: seq<int>, ghost k: nat, i: nat, ghost base: State)
      requires Sizes() && c < customers && 0 < i < k < resources == |release|
      requires Shaped(base) && |base.available| == resources && |base.allocation| == customers
      requires Holds(Rolling(base, c, release, k, i + 1))
      modifies available, allocation
      ensures Holds(Rolling(base, c, release, k, i))
    {
      allocation[c, i - 1] := allocation[c, i - 1] + release[i - 1];
      available[i] := available[i] - release[i];
    }

    /** Its last turn, which reads the word in front of the argument and writes in front of the row. */
    method RollLast(c: nat, release: seq<int>, ghost k: nat, stray: int, ghost base: State)
      requires Sizes() && c < customers && 0 < k < resources == |release|
      requires Shaped(base) && |base.available| == resources && |base.allocation| == customers
      requires Holds(Rolling(base, c, release, k, 1))
      modifies available, allocation, this`outside
      ensures Holds(BadlyRolledBack(base, c, release, k, stray))
    {
      if c > 0 {
        allocation[c - 1, resources - 1] := allocation[c - 1, resources - 1] + stray;
      } else {
        outside := outside + stray;
      }
      available[0] := available[0] - release[0];
    }

    /** The rollback of a release rejected at resource `k`, as it is written. */
    method RollBackRelease(c: nat, release: seq<int>, k: nat, stray: int, ghost base: State)
      requires Sizes() && c < customers && k < resources == |release|
      requires Shaped(base) && |base.available| == resources && |base.allocation| == customers
      requires Holds(Returned(base, c, release, k))
      modifies available, allocation, this`outside
      ensures Holds(BadlyRolledBack(base, c, release, k, stray))
    {
      var i := k;
      RollingEnds(base, c, release, k);
      while i > 0
        invariant 0 <= i <= k
        invariant i > 0 ==> Holds(Rolling(base, c, release, k, i))
        invariant i == 0 ==> Holds(BadlyRolledBack(base, c, release, k, stray))
      {
        i := i - 1;
        if i > 0 {
          RollOne(c, release, k, i, base);
        } else {
          RollLast(c, release, k, stray, base);
        }
      }
    }

    /** Customer `c` gives back resource `i`. */
    method GiveBack(c: nat, release: seq<int>, i: nat, ghost base: State)
      requires Sizes() && c < customers && i < resources == |release|
      requires Shaped(base) && |base.available| == resources && |base.allocation| == customers
      requires Holds(Returned(base, c, release, i))
      modifies available, allocation
      ensures Holds(Returned(base, c, release, i + 1))
    {
      allocation[c, i] := allocation[c, i] - release[i];
      available[i] := available[i] + release[i];
    }

    /** release_resources: 0 when accepted, -1 otherwise. */
    method ReleaseResources(customer: int, release: seq<int>, stray: int) returns (code: int)
      requires Valid() && |release| == resources
      modifies available, allocation, this`outside, this`st
      ensures Valid() && Release(old(st), customer, release, stray, code, st)
    {
      if customer < 0 || customer >= customers {
        return -1;
      }
      var c: nat := customer;
      ghost var base := st;
      ReturnedNothing(base, c, release);
      for i := 0 to resources
        invariant st == base && Holds(Returned(base, c, release, i))
        invariant forall j :: 0 <= j < i ==> 0 <= release[j] <= base.allocation[c][j]
      {
        if release[i] < 0 || release[i] > allocation[c, i] {
          assert ReleaseStops(base, c, release, i);
          RollBackRelease(c, release, i, stray, base);
          st := BadlyRolledBack(base, c, release, i, stray);
          return -1;
        }
        GiveBack(c, release, i, base);
      }
      st := Returned(base, c, release, resources);
      return 0;
    }
  }
}
