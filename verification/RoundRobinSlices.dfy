/** The lengths of the slices of each task, and the order of the first round. */
module RoundRobinSlices {
  import opened Sequences
  import opened TaskList
  import opened RoundRobinModel
  import opened RoundRobinCursor
  import opened RoundRobinExact
  import opened RoundRobinFairness
  import opened PriorityTraces

  /** The lengths of the slices of `t`, in order. */
  function Lengths(trace: seq<Slice>, t: Task): seq<int> {
    if trace == [] then []
    else (if trace[0].task == t then [trace[0].units] else []) + Lengths(trace[1..], t)
  }

  /** A burst cut into quanta of ten units: the last slice is what the others leave. */
  function Quanta(burst: int): seq<int>
    decreases if burst > 10 then burst else 0
  {
    if burst > 10 then [10] + Quanta(burst - 10) else [burst]
  }

  function Sum(s: seq<int>): int {
    if s == [] then 0 else s[0] + Sum(s[1..])
  }

  /** All slices but the last are ten units long, the last is at most ten, and positive if the burst is,
    * and together they are the burst. */
  lemma {:induction false} QuantaShape(burst: int)
    ensures var s := Quanta(burst); var n := |s| - 1;
      && n >= 0 && (forall i :: 0 <= i < n ==> s[i] == 10)
      && s[n] <= 10 && (burst > 0 ==> s[n] > 0) && Sum(s) == burst
    decreases if burst > 10 then burst else 0
  {
    if burst > 10 {
      QuantaShape(burst - 10);
      assert Quanta(burst)[1..] == Quanta(burst - 10);
    } else {
      assert Quanta(burst)[1..] == [];
    }
  }

  lemma {:induction false} SumOfLengths(trace: seq<Slice>, t: Task)
    ensures Sum(Lengths(trace, t)) == UnitsOf(trace, t) && |Lengths(trace, t)| == SlicesOf(trace, t)
  {
    if trace != [] {
      SumOfLengths(trace[1..], t);
      var rest := Lengths(trace[1..], t);
      assert ([trace[0].units] + rest)[1..] == rest && [] + rest == rest;
    }
  }

  /** Where task `t` is after one turn. */
  lemma {:induction false} AfterTurn(q: seq<Job>, i: nat)
    requires DistinctJobs(q) && i < |q|
    ensures var r, j := Rotate(q), q[i];
      && DistinctJobs(r)
      && (i > 0 ==> r[i - 1] == j)
      && (i == 0 && j.left > 10 ==> r[|q| - 1] == Job(j.task, j.left - 10))
      && (i == 0 && j.left <= 10 ==> !Member(r, j.task))
      && Turn(q[0]) == Slice(q[0].task, if q[0].left > 10 then 10 else q[0].left)
  {
    RotateDistinct(q);
  }

  lemma {:induction false} NoLengths(q: seq<Job>, t: Task)
    requires !Member(q, t)
    ensures Lengths(RunQueue(q), t) == []
  {
    TurnsIffMember(q, t);
    RunsItsBurst(q, t);
    SumOfLengths(RunQueue(q), t);
  }

  lemma LengthsOfTurn(q: seq<Job>, t: Task)
    requires DistinctJobs(q) && q != []
    ensures Lengths(RunQueue(q), t) ==
      (if q[0].task == t then [if q[0].left > 10 then 10 else q[0].left] else []) + Lengths(RunQueue(Rotate(q)), t)
  {
    AfterTurn(q, 0);
    var rest := RunQueue(Rotate(q));
    assert RunQueue(q) == [Turn(q[0])] + rest && ([Turn(q[0])] + rest)[1..] == rest;
  }

  /** In the run of the queue every task has its burst in quanta of ten units. */
  lemma {:induction false} QueueSlices(q: seq<Job>, i: nat)
    requires DistinctJobs(q) && i < |q|
    ensures Lengths(RunQueue(q), q[i].task) == Quanta(q[i].left)
    decreases TotalTurns(q)
  {
    var j, r := q[i], Rotate(q);
    AfterTurn(q, i);
    LengthsOfTurn(q, j.task);
    if i > 0 {
      QueueSlices(r, i - 1);
    } else if j.left > 10 {
      QueueSlices(r, |q| - 1);
    } else {
      NoLengths(r, j.task);
    }
  }

  /** The first round goes through the list from its head. */
  lemma {:induction false} FirstRound(q: seq<Job>)
    requires q != [] && DistinctJobs(q)
    ensures |RunQueue(q)| >= |q| && forall k :: 0 <= k < |q| ==> RunQueue(q)[k].task == q[k].task
  {
    RoundFromHead(q);
    OneTurnEach(q[1..], q[0].task);
  }

  ghost predicate InQuanta(js: seq<Job>, trace: seq<Slice>) {
    forall i :: 0 <= i < |js| ==> Lengths(trace, js[i].task) == Quanta(js[i].left)
  }

  /** So it is for the list with its cursor, exactly when the names fit. */
  lemma {:induction false} ListSlicesIff(js: seq<Job>)
    requires DistinctJobs(js)
    ensures InQuanta(js, RunList(js, On(0))) <==> NamesFit(js)
  {
    QueueRunIff(js);
    FullBurstsIff(js);
    var trace := RunList(js, On(0));
    if NamesFit(js) {
      forall i | 0 <= i < |js|
        ensures Lengths(trace, js[i].task) == Quanta(js[i].left)
      {
        QueueSlices(js, i);
      }
    }
    if InQuanta(js, trace) {
      forall i | 0 <= i < |js|
        ensures UnitsOf(trace, js[i].task) == js[i].left
      {
        SumOfLengths(trace, js[i].task);
        QuantaShape(js[i].left);
      }
    }
  }

  // ----- with priorities -----

  lemma {:induction false} LengthsConcat(a: seq<Slice>, b: seq<Slice>, t: Task)
    ensures Lengths(a + b, t) == Lengths(a, t) + Lengths(b, t)
  {
    if a == [] {
      assert a + b == b;
    } else {
      var own := if a[0].task == t then [a[0].units] else [];
      LengthsConcat(a[1..], b, t);
      assert (a + b)[0] == a[0] && (a + b)[1..] == a[1..] + b;
      assert Lengths(a + b, t) == own + Lengths(a[1..] + b, t);
      Associative(own, Lengths(a[1..], t), Lengths(b, t));
    }
  }

  lemma {:induction false} NoLengthsAtOther(trace: seq<Slice>, t: Task, p: int)
    requires AllAt(trace, p) && t.priority != p
    ensures Lengths(trace, t) == []
  {
    if trace != [] { NoLengthsAtOther(trace[1..], t, p); }
  }

  lemma {:induction false} JoinedLengths(traces: seq<seq<Slice>>, p: nat, t: Task)
    requires p < |traces| && Layered(traces)
    ensures Lengths(Joined(traces, p), t) ==
      if MIN_PRIORITY <= t.priority <= p then Lengths(traces[t.priority], t) else []
  {
    if p >= MIN_PRIORITY {
      JoinedLengths(traces, p - 1, t);
      LengthsConcat(traces[p], Joined(traces, p - 1), t);
      if t.priority != p { NoLengthsAtOther(traces[p], t, p); }
    }
  }

  /** In the whole trace the tasks of a priority have their bursts in quanta exactly when their names fit. */
  lemma {:induction false} TraceSlicesIff(queues: seq<seq<Job>>, p: nat)
    requires |queues| == MAX_PRIORITY + 1 && Filed(queues) && MIN_PRIORITY <= p <= MAX_PRIORITY
    ensures InQuanta(queues[p], Trace(queues)) <==> NamesFit(queues[p])
  {
    var q := queues[p];
    assert OfPriority(q, p) && DistinctJobs(q);
    ListSlicesIff(q);
    FiledIsLayered(queues);
    forall i | 0 <= i < |q|
      ensures Lengths(Trace(queues), q[i].task) == Lengths(RunList(q, On(0)), q[i].task)
    {
      JoinedLengths(ListTraces(queues), MAX_PRIORITY, q[i].task);
    }
  }
}
