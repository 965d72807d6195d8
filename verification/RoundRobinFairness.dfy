/** Between two slices of one task the rotating queue gives every other unfinished task exactly one. */
module RoundRobinFairness {
  import opened TaskList
  import opened Sequences
  import opened RoundRobinModel

  /** The queue after `i` turns. */
  function QueueAt(q: seq<Job>, i: nat): seq<Job>
    requires i <= |RunQueue(q)|
    decreases i
  {
    if i == 0 then q else QueueAt(Rotate(q), i - 1)
  }

  /** The rest of the trace is the run of the queue at that point. */
  lemma {:induction false} TraceAt(q: seq<Job>, i: nat)
    requires i <= |RunQueue(q)| && DistinctJobs(q)
    ensures RunQueue(q)[i..] == RunQueue(QueueAt(q, i)) && DistinctJobs(QueueAt(q, i))
    decreases i
  {
    if i > 0 {
      RotateDistinct(q);
      TraceAt(Rotate(q), i - 1);
      assert RunQueue(q)[1..] == RunQueue(Rotate(q));
      assert RunQueue(q)[1..][i - 1..] == RunQueue(q)[i..];
    }
  }

  lemma RotateDistinct(q: seq<Job>)
    requires q != [] && DistinctJobs(q)
    ensures DistinctJobs(Rotate(q))
  {
  }

  /** From the head of the queue to its next turn all others have their turn. */
  lemma RoundFromHead(q: seq<Job>)
    requires q != []
    ensures RunQueue(q) == [Turn(q[0])] + AllTurns(q[1..]) + RunQueue(Rest(q[0]) + Survivors(q[1..]))
  {
    RunThrough(q[1..], Rest(q[0]));
    Associative([Turn(q[0])], AllTurns(q[1..]), RunQueue(Rest(q[0]) + Survivors(q[1..])));
  }

  ghost predicate Member(q: seq<Job>, t: Task) {
    exists i :: 0 <= i < |q| && q[i].task == t
  }

  lemma {:induction false} OneTurnEach(q: seq<Job>, t: Task)
    requires DistinctJobs(q)
    ensures |AllTurns(q)| == |q| && forall k :: 0 <= k < |q| ==> AllTurns(q)[k] == Turn(q[k])
    ensures SlicesOf(AllTurns(q), t) == if Member(q, t) then 1 else 0
  {
    if q != [] {
      OneTurnEach(q[1..], t);
      assert AllTurns(q)[1..] == AllTurns(q[1..]);
      assert forall k :: 0 < k < |q| ==> q[1..][k - 1] == q[k];
      if Member(q[1..], t) {
        var i :| 0 <= i < |q| - 1 && q[1..][i].task == t;
        assert q[i + 1].task == t;
      }
    }
  }

  lemma {:induction false} SliceCounts(trace: seq<Slice>, k: nat)
    requires k < |trace|
    ensures SlicesOf(trace, trace[k].task) > 0
  {
    if k > 0 { SliceCounts(trace[1..], k - 1); }
  }

  lemma {:induction false} TurnsIffMember(q: seq<Job>, t: Task)
    ensures TurnsOf(q, t) > 0 <==> Member(q, t)
  {
    if q != [] {
      TurnsIffMember(q[1..], t);
      if Member(q[1..], t) {
        var i :| 0 <= i < |q| - 1 && q[1..][i].task == t;
        assert q[i + 1].task == t;
      }
      if Member(q, t) && q[0].task != t {
        var i :| 0 <= i < |q| && q[i].task == t;
        assert q[1..][i - 1].task == t;
      }
    }
  }

  lemma {:induction false} SurvivorsAreMembers(q: seq<Job>, t: Task)
    requires !Member(q, t)
    ensures !Member(Survivors(q), t)
  {
    if q != [] {
      assert q[0].task != t;
      forall i | 0 <= i < |q| - 1
        ensures q[1..][i].task != t
      {
        assert q[1..][i] == q[i + 1];
      }
      SurvivorsAreMembers(q[1..], t);
      var r: seq<Job>, s: seq<Job> := Rest(q[0]), Survivors(q[1..]);
      var all: seq<Job> := r + s;
      forall i | 0 <= i < |all|
        ensures all[i].task != t
      {
        assert i >= |r| ==> s[i - |r|].task != t;
      }
    }
  }

  /** The next slice of the task at the head comes `|q|` slices later, if there is one. */
  lemma {:induction false} NextSliceOfHead(q: seq<Job>, d: nat)
    requires q != [] && DistinctJobs(q) && 0 < d < |RunQueue(q)| && RunQueue(q)[d].task == q[0].task
    requires forall k :: 0 < k < d ==> RunQueue(q)[k].task != q[0].task
    ensures d == |q| && RunQueue(q)[1..d] == AllTurns(q[1..])
  {
    var t, turns, tail := q[0].task, AllTurns(q[1..]), RunQueue(Rest(q[0]) + Survivors(q[1..]));
    RoundFromHead(q);
    OneTurnEach(q[1..], t);
    assert forall k :: 0 < k < |q| ==> RunQueue(q)[k] == turns[k - 1] == Turn(q[k]);
    assert d >= |q|;
    if Rest(q[0]) == [] {
      assert !Member(q[1..], t);
      SurvivorsAreMembers(q[1..], t);
      assert [] + Survivors(q[1..]) == Survivors(q[1..]);
      TurnsIffMember(Survivors(q[1..]), t);
      RunsItsBurst(Survivors(q[1..]), t);
      assert tail[d - |q|] == RunQueue(q)[d];
      SliceCounts(tail, d - |q|);
    } else {
      assert tail[0] == RunQueue(q)[|q|];
    }
  }

  /** Between two consecutive slices of one task, every other task that is not finished yet has exactly
    * one slice, and every other task that is has none. */
  lemma {:induction false} BetweenSlices(q: seq<Job>, i: nat, j: nat, u: Task)
    requires DistinctJobs(q) && i < j < |RunQueue(q)| && RunQueue(q)[i].task == RunQueue(q)[j].task != u
    requires forall k :: i < k < j ==> RunQueue(q)[k].task != RunQueue(q)[i].task
    ensures SlicesOf(RunQueue(q)[i + 1..j], u) == if SlicesOf(RunQueue(q)[i..], u) > 0 then 1 else 0
  {
    var trace, p := RunQueue(q), QueueAt(q, i);
    TraceAt(q, i);
    var s := trace[i..];
    assert s[0] == Turn(p[0]) && s[j - i] == trace[j];
    assert forall k :: 0 < k < j - i ==> s[k] == trace[i + k];
    NextSliceOfHead(p, j - i);
    assert trace[i + 1..j] == s[1..j - i] == AllTurns(p[1..]);
    OneTurnEach(p[1..], u);
    RunsItsBurst(p, u);
    TurnsIffMember(p, u);
    HeadAside(p, u);
  }

  lemma HeadAside(q: seq<Job>, u: Task)
    requires q != [] && q[0].task != u
    ensures Member(q, u) <==> Member(q[1..], u)
  {
    if Member(q, u) {
      var i :| 0 <= i < |q| && q[i].task == u;
      assert q[1..][i - 1].task == u;
    }
    if Member(q[1..], u) {
      var i :| 0 <= i < |q| - 1 && q[1..][i].task == u;
      assert q[i + 1].task == u;
    }
  }
}
