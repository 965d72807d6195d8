/** The orders of the FCFS, SJF and priority schedulers in terms of bursts, priorities and positions. A
  * task list has the newest task first. */
module ScheduleOrders {
  import opened TaskList
  import opened ScheduleModel

  /** Task `a` stands behind task `b` in the list `ts`. */
  ghost predicate Behind(ts: seq<Task>, a: Task, b: Task) {
    exists x, y :: 0 <= x < y < |ts| && ts[x] == b && ts[y] == a
  }

  /** All tasks once, from high to low priority, of equal ones the one further back, the older, first. */
  ghost predicate ByPriority(ts: seq<Task>, out: seq<Task>) {
    && multiset(out) == multiset(ts)
    && forall i, j :: 0 <= i < j < |out| ==>
         out[i].priority > out[j].priority || (out[i].priority == out[j].priority && Behind(ts, out[i], out[j]))
  }

  /** All tasks once, from short to long, of equal ones the one further back, the older, first. */
  ghost predicate ByBurst(ts: seq<Task>, out: seq<Task>) {
    && multiset(out) == multiset(ts)
    && forall i, j :: 0 <= i < j < |out| ==>
         out[i].burst < out[j].burst || (out[i].burst == out[j].burst && Behind(ts, out[i], out[j]))
  }

  /** All tasks once, from the back of the list to its front. */
  ghost predicate ByAge(ts: seq<Task>, out: seq<Task>) {
    && multiset(out) == multiset(ts)
    && forall i, j :: 0 <= i < j < |out| ==> Behind(ts, out[i], out[j])
  }

  lemma BehindIsOlder(ts: seq<Task>, a: Task, b: Task)
    ensures Behind(ts, a, b) <==> AddedBefore(ts, a, b)
  {
  }

  /** The priority scheduler runs its tasks by priority exactly when of any two tasks with the same name
    * the newer has the higher priority. */
  lemma {:induction false} PriorityOrderIff(ts: seq<Task>)
    requires DistinctTasks(ts)
    ensures ByPriority(ts, Order(ts, PRIORITY)) <==>
      forall i, j :: 0 <= i < j < |ts| && ts[i].name == ts[j].name ==> ts[i].priority > ts[j].priority
  {
    var out := Order(ts, PRIORITY);
    OrderIsStableSortIff(ts, PRIORITY);
    forall i, j | 0 <= i < j < |out|
      ensures Ahead(ts, out[i], out[j], PRIORITY) <==>
        out[i].priority > out[j].priority || (out[i].priority == out[j].priority && Behind(ts, out[i], out[j]))
    {
      BehindIsOlder(ts, out[i], out[j]);
    }
  }

  /** The same for SJF, where the newer of two namesakes has to be the shorter. */
  lemma {:induction false} SjfOrderIff(ts: seq<Task>)
    requires DistinctTasks(ts)
    ensures ByBurst(ts, Order(ts, SJF)) <==>
      forall i, j :: 0 <= i < j < |ts| && ts[i].name == ts[j].name ==> ts[i].burst < ts[j].burst
  {
    var out := Order(ts, SJF);
    OrderIsStableSortIff(ts, SJF);
    forall i, j | 0 <= i < j < |out|
      ensures Ahead(ts, out[i], out[j], SJF) <==>
        out[i].burst < out[j].burst || (out[i].burst == out[j].burst && Behind(ts, out[i], out[j]))
    {
      BehindIsOlder(ts, out[i], out[j]);
    }
  }

  /** And for FCFS, which needs names that differ. */
  lemma {:induction false} FcfsOrderIff(ts: seq<Task>)
    requires DistinctTasks(ts)
    ensures ByAge(ts, Order(ts, FCFS)) <==> forall i, j :: 0 <= i < j < |ts| ==> ts[i].name != ts[j].name
  {
    var out := Order(ts, FCFS);
    OrderIsStableSortIff(ts, FCFS);
    forall i, j | 0 <= i < j < |out|
      ensures Ahead(ts, out[i], out[j], FCFS) <==> Behind(ts, out[i], out[j])
    {
      BehindIsOlder(ts, out[i], out[j]);
    }
  }
}
