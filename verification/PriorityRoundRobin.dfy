/** Round robin within each priority, priorities from high to low. */
module PriorityRoundRobin {
  import opened TaskList
  import opened ScheduleModel
  import opened RoundRobinModel
  import opened RoundRobinCursor
  import opened PriorityTraces
  import RoundRobin

  lemma TraceStep(trace: seq<Slice>, traces: seq<seq<Slice>>, p: nat)
    requires MIN_PRIORITY <= p < |traces|
    ensures trace + traces[p] + Joined(traces, p - 1) == trace + Joined(traces, p)
  {
  }

  ghost predicate Owned(l: List, p: int, mine: set<Task>)
    reads l, l.Repr
  {
    l.Valid() && DistinctTasks(l.tasks) && forall i :: 0 <= i < |l.tasks| ==> l.tasks[i] in mine && l.tasks[i].priority == p
  }

  ghost function UnionOf<T>(ss: seq<set<T>>): (u: set<T>)
    ensures forall i :: 0 <= i < |ss| ==> ss[i] <= u
  {
    set s, x | s in ss && x in s :: x
  }

  class Scheduler {
    const lists: seq<List>                 // taskList[0], ..., taskList[MAX_PRIORITY]
    const cpu: RoundRobin.Scheduler        // next_node
    ghost var nodesOf: seq<set<Node>>
    ghost var tasksOf: seq<set<Task>>

    /** The lists share no node and no task. */
    ghost predicate Separate()
      reads this`nodesOf, this`tasksOf, lists`Repr
    {
      && |lists| == |nodesOf| == |tasksOf| == MAX_PRIORITY + 1
      && (forall p :: 0 <= p < |lists| ==> lists[p].Repr == nodesOf[p])
      && (forall p, q :: 0 <= p < q < |lists| ==>
            lists[p] != lists[q] && nodesOf[p] !! nodesOf[q] && tasksOf[p] !! tasksOf[q])
    }

    ghost predicate Valid()
      reads this, lists, UnionOf(nodesOf)
    {
      Separate() && forall p :: 0 <= p < |lists| ==> Owned(lists[p], p, tasksOf[p])
    }

    constructor ()
      ensures Valid() && fresh(lists) && fresh(cpu)
      ensures forall p :: 0 <= p < |lists| ==> lists[p].tasks == [] && nodesOf[p] == {} && tasksOf[p] == {}
    {
      var ls: seq<List> := [];
      while |ls| <= MAX_PRIORITY
        invariant |ls| <= MAX_PRIORITY + 1
        invariant forall p :: 0 <= p < |ls| ==>
          fresh(ls[p]) && ls[p].Valid() && ls[p].tasks == [] && ls[p].Repr == {}
        invariant forall p, q :: 0 <= p < q < |ls| ==> ls[p] != ls[q]
        decreases MAX_PRIORITY + 1 - |ls|
      {
        var l := new List();
        ls := ls + [l];
      }
      var c := new RoundRobin.Scheduler();
      lists, cpu := ls, c;
      nodesOf := seq(MAX_PRIORITY + 1, _ => {});
      tasksOf := seq(MAX_PRIORITY + 1, _ => {});
    }

    method InsertAt(p: nat, t: Task)
      requires Valid() && p < |lists| && t.priority == p
      requires forall q :: 0 <= q < |lists| ==> t !in tasksOf[q]
      modifies this`nodesOf, this`tasksOf, lists[p]
      ensures Valid() && lists[p].tasks == [t] + old(lists[p].tasks)
      ensures forall q :: 0 <= q < |lists| && q != p ==> lists[q].tasks == old(lists[q].tasks)
    {
      lists[p].Insert(t);
      nodesOf := nodesOf[p := lists[p].Repr];
      tasksOf := tasksOf[p := tasksOf[p] + {t}];
    }

    /** add: the task joins the list of its priority. That of priority 0 is never run. */
    method Add(name: string, priority: int, burst: int) returns (t: Task)
      requires Valid() && 0 <= priority <= MAX_PRIORITY
      modifies this`nodesOf, this`tasksOf, lists[priority]
      ensures Valid() && fresh(t) && t.name == name && t.priority == priority && t.burst == t.remaining == burst
      ensures lists[priority].tasks == [t] + old(lists[priority].tasks)
      ensures forall q :: 0 <= q < |lists| && q != priority ==> lists[q].tasks == old(lists[q].tasks)
    {
      t := new Task(name, priority, burst);
      InsertAt(priority, t);
    }

    /** List `q` holds the jobs `jobs`. */
    ghost predicate Files(q: nat, jobs: seq<Job>)
      requires q < |lists| == |nodesOf| == |tasksOf|
      reads this`nodesOf, this`tasksOf, lists[q], nodesOf[q], tasksOf[q]
    {
      && lists[q].Repr == nodesOf[q] && Owned(lists[q], q, tasksOf[q]) && |jobs| == |lists[q].tasks|
      && forall i :: 0 <= i < |jobs| ==> jobs[i] == Job(lists[q].tasks[i], lists[q].tasks[i].remaining)
    }

    /** The lists up to priority `p` are still as `queues` describes them. */
    ghost predicate Pending(queues: seq<seq<Job>>, p: int)
      reads this, lists, UnionOf(nodesOf), UnionOf(tasksOf)
    {
      Separate() && |queues| == |lists| && p < |lists| && forall q :: 0 <= q <= p ==> Files(q, queues[q])
    }

    /** All tasks of priorities above `p` are done. */
    ghost predicate Emptied(p: int)
      reads lists`tasks
    {
      |lists| == MAX_PRIORITY + 1 && forall q :: 0 <= p < q <= MAX_PRIORITY ==> lists[q].tasks == []
    }

    /** Runs the tasks of one list. */
    method RunAlone(list: List, p: nat, ghost jobs: seq<Job>) returns (trace: seq<Slice>)
      requires Separate() && p < |lists| && list == lists[p] && Files(p, jobs)
      modifies cpu, list`head, list`nodes, list`tasks, nodesOf[p], tasksOf[p]
      ensures list.tasks == [] && trace == RunList(jobs, On(0))
    {
      assert jobs == Jobs(list.tasks);
      trace := cpu.Schedule(list);
    }

    /** The other lists are as they were. */
    method RunPriority(list: List, p: nat, ghost queues: seq<seq<Job>>) returns (trace: seq<Slice>)
      requires 0 < p && Pending(queues, p) && list == lists[p] && Emptied(p)
      modifies cpu, list`head, list`nodes, list`tasks, nodesOf[p], tasksOf[p]
      ensures Pending(queues, p - 1) && Emptied(p - 1) && trace == RunList(queues[p], On(0))
    {
      trace := RunAlone(list, p, queues[p]);
      forall q | 0 <= q <= p - 1
        ensures Files(q, queues[q])
      {
        assert old(Files(q, queues[q]));
        assert lists[q] != list && nodesOf[q] !! nodesOf[p] && tasksOf[q] !! tasksOf[p];
      }
    }

    /** One turn of the outer loop in schedule. */
    method RunNext(p: nat, ghost queues: seq<seq<Job>>, ghost traces: seq<seq<Slice>>) returns (trace: seq<Slice>)
      requires 0 < p && Pending(queues, p) && Emptied(p) && traces == ListTraces(queues)
      modifies cpu, lists`head, lists`nodes, lists`tasks, UnionOf(nodesOf), UnionOf(tasksOf)
      ensures Pending(queues, p - 1) && Emptied(p - 1) && trace == traces[p]
    {
      trace := RunPriority(lists[p], p, queues);
    }

    lemma FilesByPriority(queues: seq<seq<Job>>)
      requires Valid() && |queues| == |lists|
      requires forall p :: 0 <= p < |lists| ==> queues[p] == Jobs(lists[p].tasks)
      ensures Filed(queues) && Pending(queues, MAX_PRIORITY)
    {
    }

    /** schedule. `queues` are the jobs in the lists at the start. */
    method Schedule(ghost queues: seq<seq<Job>>) returns (trace: seq<Slice>)
      requires Valid() && |queues| == |lists|
      requires forall p :: 0 <= p < |lists| ==> queues[p] == Jobs(lists[p].tasks)
      modifies cpu, lists`head, lists`nodes, lists`tasks, UnionOf(nodesOf), UnionOf(tasksOf)
      ensures |queues| == MAX_PRIORITY + 1 && Filed(queues)
      ensures trace == Trace(queues) && Falling(trace)
      ensures Emptied(MIN_PRIORITY - 1)
    {
      FilesByPriority(queues);
      TraceFalls(queues);
      trace := RunAll(queues, ListTraces(queues));
    }

    /** The outer loop in schedule. */
    method RunAll(ghost queues: seq<seq<Job>>, ghost traces: seq<seq<Slice>>) returns (trace: seq<Slice>)
      requires Pending(queues, MAX_PRIORITY) && Emptied(MAX_PRIORITY) && traces == ListTraces(queues)
      modifies cpu, lists`head, lists`nodes, lists`tasks, UnionOf(nodesOf), UnionOf(tasksOf)
      ensures trace == Joined(traces, MAX_PRIORITY) && Emptied(MIN_PRIORITY - 1)
    {
      trace := [];
      ghost var all := Joined(traces, MAX_PRIORITY);
      var p := MAX_PRIORITY;
      while p >= MIN_PRIORITY
        invariant 0 <= p <= MAX_PRIORITY && Pending(queues, p) && Emptied(p)
        invariant trace + Joined(traces, p) == all
      {
        TraceStep(trace, traces, p);
        var t := RunNext(p, queues, traces);
        trace := trace + t;
        p := p - 1;
      }
      assert trace + [] == trace;
    }
  }
}
