/** The traces of the priority round-robin scheduler: those of one list per priority, from high to low. */
module PriorityTraces {
  import opened TaskList
  import opened RoundRobinModel
  import opened RoundRobinCursor
  import opened RoundRobinExact

  const MIN_PRIORITY := 1
  const MAX_PRIORITY := 10

  // ----- one trace per priority -----

  /** The traces of priority `p`, `p - 1`, ..., 1, one after the other. */
  ghost function Joined(traces: seq<seq<Slice>>, p: nat): seq<Slice>
    requires p < |traces|
  {
    if p < MIN_PRIORITY then [] else traces[p] + Joined(traces, p - 1)
  }

  ghost predicate AllAt(trace: seq<Slice>, p: int) {
    forall i :: 0 <= i < |trace| ==> trace[i].task.priority == p
  }

  ghost predicate AtMost(trace: seq<Slice>, p: int) {
    forall i :: 0 <= i < |trace| ==> trace[i].task.priority <= p
  }

  /** Each trace has slices of its priority only. */
  ghost predicate Layered(traces: seq<seq<Slice>>) {
    forall p :: MIN_PRIORITY <= p < |traces| ==> AllAt(traces[p], p)
  }

  /** The priorities of the slices never rise. */
  ghost predicate Falling(trace: seq<Slice>) {
    forall i, j :: 0 <= i < j < |trace| ==> trace[i].task.priority >= trace[j].task.priority
  }

  lemma FallingConcat(a: seq<Slice>, b: seq<Slice>, p: int)
    requires AllAt(a, p) && Falling(b) && AtMost(b, p - 1)
    ensures Falling(a + b) && AtMost(a + b, p)
  {
  }

  lemma {:induction false} JoinedFalls(traces: seq<seq<Slice>>, p: nat)
    requires p < |traces| && Layered(traces)
    ensures Falling(Joined(traces, p)) && AtMost(Joined(traces, p), p)
  {
    if p >= MIN_PRIORITY {
      JoinedFalls(traces, p - 1);
      FallingConcat(traces[p], Joined(traces, p - 1), p);
    }
  }

  /** Slices of priority `p` followed by lower ones can be told apart. */
  lemma {:induction false} LongerFirst(a: seq<Slice>, b: seq<Slice>, a': seq<Slice>, b': seq<Slice>, p: int)
    requires AllAt(a', p) && AtMost(b, p - 1) && a + b == a' + b'
    ensures |a'| <= |a|
  {
    ConcatAt(a, b, |a|);
    ConcatAt(a', b', |a|);
  }

  lemma ConcatAt<T>(a: seq<T>, b: seq<T>, k: nat)
    ensures k < |a| + |b| ==> (a + b)[k] == if k < |a| then a[k] else b[k - |a|]
  {
  }

  lemma {:induction false} SplitAtPriority(a: seq<Slice>, b: seq<Slice>, a': seq<Slice>, b': seq<Slice>, p: int)
    requires AllAt(a, p) && AllAt(a', p) && AtMost(b, p - 1) && AtMost(b', p - 1)
    ensures a + b == a' + b' <==> a == a' && b == b'
  {
    if a + b == a' + b' {
      LongerFirst(a, b, a', b', p);
      LongerFirst(a', b', a, b, p);
      assert a == (a + b)[..|a|] == a' && b == (a + b)[|a|..] == b';
    }
  }

  lemma {:induction false} JoinedIff(traces: seq<seq<Slice>>, traces': seq<seq<Slice>>, p: nat)
    requires p < |traces| == |traces'| && Layered(traces) && Layered(traces')
    ensures Joined(traces, p) == Joined(traces', p) <==> forall q :: MIN_PRIORITY <= q <= p ==> traces[q] == traces'[q]
  {
    if p >= MIN_PRIORITY {
      JoinedIff(traces, traces', p - 1);
      JoinedFalls(traces, p - 1);
      JoinedFalls(traces', p - 1);
      SplitAtPriority(traces[p], Joined(traces, p - 1), traces'[p], Joined(traces', p - 1), p);
    }
  }

  lemma {:induction false} TotalsConcat(a: seq<Slice>, b: seq<Slice>, t: Task)
    ensures UnitsOf(a + b, t) == UnitsOf(a, t) + UnitsOf(b, t)
    ensures SlicesOf(a + b, t) == SlicesOf(a, t) + SlicesOf(b, t)
  {
    if a == [] {
      assert a + b == b;
    } else {
      TotalsConcat(a[1..], b, t);
      assert (a + b)[1..] == a[1..] + b;
    }
  }

  lemma {:induction false} NothingAtOther(trace: seq<Slice>, t: Task, p: int)
    requires AllAt(trace, p) && t.priority != p
    ensures UnitsOf(trace, t) == 0 == SlicesOf(trace, t)
  {
    if trace != [] { NothingAtOther(trace[1..], t, p); }
  }

  /** A task gets the units and slices that the trace of its priority gives it. */
  lemma {:induction false} JoinedTotals(traces: seq<seq<Slice>>, p: nat, t: Task)
    requires p < |traces| && Layered(traces)
    ensures var r, all := t.priority, Joined(traces, p);
      if MIN_PRIORITY <= r <= p then
        UnitsOf(all, t) == UnitsOf(traces[r], t) && SlicesOf(all, t) == SlicesOf(traces[r], t)
      else UnitsOf(all, t) == 0 == SlicesOf(all, t)
  {
    if p >= MIN_PRIORITY {
      JoinedTotals(traces, p - 1, t);
      TotalsAbove(traces[p], Joined(traces, p - 1), t, p);
    }
  }

  lemma TotalsAbove(a: seq<Slice>, b: seq<Slice>, t: Task, p: int)
    requires AllAt(a, p)
    ensures UnitsOf(a + b, t) == UnitsOf(b, t) + if t.priority == p then UnitsOf(a, t) else 0
    ensures SlicesOf(a + b, t) == SlicesOf(b, t) + if t.priority == p then SlicesOf(a, t) else 0
  {
    TotalsConcat(a, b, t);
    if t.priority != p { NothingAtOther(a, t, p); }
  }

  // ----- the traces of the lists, and of rotating queues -----

  ghost function ListTraces(queues: seq<seq<Job>>): (r: seq<seq<Slice>>)
    ensures |r| == |queues| && forall p :: 0 <= p < |queues| ==> r[p] == RunList(queues[p], On(0))
  {
    seq(|queues|, p requires 0 <= p < |queues| => RunList(queues[p], On(0)))
  }

  ghost function QueueTraces(queues: seq<seq<Job>>): (r: seq<seq<Slice>>)
    ensures |r| == |queues| && forall p :: 0 <= p < |queues| ==> r[p] == RunQueue(queues[p])
  {
    seq(|queues|, p requires 0 <= p < |queues| => RunQueue(queues[p]))
  }

  ghost predicate OfPriority(js: seq<Job>, p: int) {
    forall i :: 0 <= i < |js| ==> js[i].task.priority == p
  }

  /** Each task is in the list of its priority, once. */
  ghost predicate Filed(queues: seq<seq<Job>>) {
    forall p :: MIN_PRIORITY <= p < |queues| ==> OfPriority(queues[p], p) && DistinctJobs(queues[p])
  }

  /** A list of one priority runs slices of that priority only. */
  lemma {:induction false} SlicesOfPriority(js: seq<Job>, at: Cursor, p: int)
    requires Stands(js, at) && OfPriority(js, p) && (at.Off? ==> at.job.task.priority == p)
    ensures AllAt(RunList(js, at), p)
    decreases Measure(js, at)
  {
    if js != [] {
      var next := Next(js, at);
      SlicesOfPriority(next.0, next.1, p);
    }
  }

  lemma {:induction false} QueueSlicesOfPriority(q: seq<Job>, p: int)
    requires OfPriority(q, p)
    ensures AllAt(RunQueue(q), p)
    decreases TotalTurns(q)
  {
    if q != [] { QueueSlicesOfPriority(Rotate(q), p); }
  }

  lemma FiledIsLayered(queues: seq<seq<Job>>)
    requires Filed(queues)
    ensures Layered(ListTraces(queues)) && Layered(QueueTraces(queues))
  {
    forall p | MIN_PRIORITY <= p < |queues|
      ensures AllAt(ListTraces(queues)[p], p) && AllAt(QueueTraces(queues)[p], p)
    {
      SlicesOfPriority(queues[p], On(0), p);
      QueueSlicesOfPriority(queues[p], p);
    }
  }

  // ----- the scheduler -----

  /** The whole trace: the lists are run from the highest priority down. */
  ghost function Trace(queues: seq<seq<Job>>): seq<Slice>
    requires |queues| == MAX_PRIORITY + 1
  {
    Joined(ListTraces(queues), MAX_PRIORITY)
  }

  /** The same with a rotating queue for each priority */
  ghost function QueueTrace(queues: seq<seq<Job>>): seq<Slice>
    requires |queues| == MAX_PRIORITY + 1
  {
    Joined(QueueTraces(queues), MAX_PRIORITY)
  }

  /** Whatever the names, no task runs before one of higher priority is done. */
  lemma TraceFalls(queues: seq<seq<Job>>)
    requires |queues| == MAX_PRIORITY + 1 && Filed(queues)
    ensures Falling(Trace(queues))
  {
    FiledIsLayered(queues);
    JoinedFalls(ListTraces(queues), MAX_PRIORITY);
  }

  ghost predicate AllFit(queues: seq<seq<Job>>)
    requires |queues| == MAX_PRIORITY + 1
  {
    forall p :: MIN_PRIORITY <= p <= MAX_PRIORITY ==> NamesFit(queues[p])
  }

  /** The trace is that of rotating queues exactly when the names fit within each priority. */
  lemma {:induction false} QueueTraceIff(queues: seq<seq<Job>>)
    requires |queues| == MAX_PRIORITY + 1 && Filed(queues)
    ensures Trace(queues) == QueueTrace(queues) <==> AllFit(queues)
  {
    var a, b := ListTraces(queues), QueueTraces(queues);
    FiledIsLayered(queues);
    JoinedIff(a, b, MAX_PRIORITY);
    forall p | MIN_PRIORITY <= p <= MAX_PRIORITY
      ensures a[p] == b[p] <==> NamesFit(queues[p])
    {
      QueueRunIff(queues[p]);
    }
  }

  /** With rotating queues every task gets its whole burst, in as many slices as the quantum asks for. */
  lemma QueueTraceGivesBursts(queues: seq<seq<Job>>, p: nat, i: nat)
    requires |queues| == MAX_PRIORITY + 1 && Filed(queues) && MIN_PRIORITY <= p <= MAX_PRIORITY && i < |queues[p]|
    ensures var j := queues[p][i];
      UnitsOf(QueueTrace(queues), j.task) == j.left && SlicesOf(QueueTrace(queues), j.task) == Turns(j.left)
  {
    var q := queues[p];
    assert OfPriority(q, p) && DistinctJobs(q);
    FiledIsLayered(queues);
    JoinedTotals(QueueTraces(queues), MAX_PRIORITY, q[i].task);
    RunsItsBurst(q, q[i].task);
    OneJob(q, i);
  }

  /** So does the scheduler when the names fit. */
  lemma TraceGivesBursts(queues: seq<seq<Job>>, p: nat, i: nat)
    requires |queues| == MAX_PRIORITY + 1 && Filed(queues) && MIN_PRIORITY <= p <= MAX_PRIORITY && i < |queues[p]|
    requires AllFit(queues)
    ensures var j := queues[p][i];
      UnitsOf(Trace(queues), j.task) == j.left && SlicesOf(Trace(queues), j.task) == Turns(j.left)
  {
    QueueTraceIff(queues);
    QueueTraceGivesBursts(queues, p, i);
  }

  /** Every task of priority `p` gets its whole burst in the trace. */
  ghost predicate BurstsAt(queues: seq<seq<Job>>, p: int)
    requires 0 <= p < |queues| == MAX_PRIORITY + 1
  {
    forall i :: 0 <= i < |queues[p]| ==> UnitsOf(Trace(queues), queues[p][i].task) == queues[p][i].left
  }

  /** The tasks of a priority get their whole bursts exactly when their names fit. */
  lemma BurstsIff(queues: seq<seq<Job>>, p: nat)
    requires |queues| == MAX_PRIORITY + 1 && Filed(queues) && MIN_PRIORITY <= p <= MAX_PRIORITY
    ensures BurstsAt(queues, p) <==> NamesFit(queues[p])
  {
    var q := queues[p];
    assert OfPriority(q, p) && DistinctJobs(q);
    FullBurstsIff(q);
    FiledIsLayered(queues);
    forall i | 0 <= i < |q|
      ensures UnitsOf(Trace(queues), q[i].task) == UnitsOf(RunList(q, On(0)), q[i].task)
    {
      JoinedTotals(ListTraces(queues), MAX_PRIORITY, q[i].task);
    }
  }
}
