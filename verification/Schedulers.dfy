/** The FCFS, SJF and priority schedulers over the linked list in memory. */
module Schedulers {
  import opened TaskList
  import opened Sequences
  import opened ScheduleModel

  /** What the three have in common: the global task list and the two calls on it. */
  class Scheduler {
    const list: List
    const policy: Policy

    ghost predicate Valid()
      reads this, list, list.Repr
    {
      list.Valid() && DistinctTasks(list.tasks)
    }

    constructor (policy: Policy)
      ensures Valid() && fresh(list) && list.Repr == {} && list.tasks == [] && this.policy == policy
    {
      list := new List();
      this.policy := policy;
    }

    /** add */
    method Add(name: string, priority: int, burst: int)
      requires Valid()
      modifies list
      ensures Valid() && fresh(list.Repr - old(list.Repr))
      ensures |list.tasks| == |old(list.tasks)| + 1 && list.tasks[1..] == old(list.tasks)
      ensures var t := list.tasks[0]; t.name == name && t.priority == priority && t.burst == burst
    {
      var t := new Task(name, priority, burst);
      list.Insert(t);
    }

    /** pickNextTask of schedule_fcfs.c: the last node. */
    method PickLast() returns (t: Task)
      requires Valid() && list.tasks != []
      ensures t == list.tasks[|list.tasks| - 1] == list.tasks[Pick(list.tasks, FCFS)]
    {
      var lastNode := list.head;
      ghost var k := 0;
      assert At(0);
      while lastNode.next != null
        invariant 0 <= k < |list.nodes| && lastNode == list.nodes[k]
        decreases |list.nodes| - k
      {
        assert At(k);
        lastNode, k := lastNode.next, k + 1;
      }
      assert At(k);
      t := lastNode.task;
    }

    /** pickNextTask of schedule_sjf.c */
    method PickShortest() returns (t: Task)
      requires Valid() && list.tasks != []
      ensures t == list.tasks[Pick(list.tasks, SJF)]
      ensures forall j :: 0 <= j < |list.tasks| ==> t.burst <= list.tasks[j].burst
      ensures exists k :: (0 <= k < |list.tasks| && t == list.tasks[k]
                            && forall j :: k < j < |list.tasks| ==> t.burst < list.tasks[j].burst)
    {
      assert At(0);
      var n: Node? := list.head;
      t := n.task;
      ghost var i, best := 0, 0;
      while n != null
        invariant 0 <= i <= |list.nodes| && n == if i < |list.nodes| then list.nodes[i] else null
        invariant 0 <= best < |list.tasks| && t == list.tasks[best] && best <= i
        invariant forall j :: 0 <= j < i ==> t.burst <= list.tasks[j].burst
        invariant forall j :: best < j < i ==> t.burst < list.tasks[j].burst
        decreases |list.nodes| - i
      {
        assert At(i);
        if n.task.burst <= t.burst {
          t, best := n.task, i;
        }
        n, i := n.next, i + 1;
      }
      PickUnique(list.tasks, SJF, best);
    }

    /** pickNextTask of schedule_priority.c */
    method PickHighest() returns (t: Task)
      requires Valid() && list.tasks != []
      ensures t == list.tasks[Pick(list.tasks, PRIORITY)]
      ensures forall j :: 0 <= j < |list.tasks| ==> t.priority >= list.tasks[j].priority
      ensures exists k :: (0 <= k < |list.tasks| && t == list.tasks[k]
                            && forall j :: k < j < |list.tasks| ==> t.priority > list.tasks[j].priority)
    {
      assert At(0);
      var n: Node? := list.head;
      t := n.task;
      ghost var i, best := 0, 0;
      while n != null
        invariant 0 <= i <= |list.nodes| && n == if i < |list.nodes| then list.nodes[i] else null
        invariant 0 <= best < |list.tasks| && t == list.tasks[best] && best <= i
        invariant forall j :: 0 <= j < i ==> t.priority >= list.tasks[j].priority
        invariant forall j :: best < j < i ==> t.priority > list.tasks[j].priority
        decreases |list.nodes| - i
      {
        assert At(i);
        if n.task.priority >= t.priority {
          t, best := n.task, i;
        }
        n, i := n.next, i + 1;
      }
      PickUnique(list.tasks, PRIORITY, best);
    }

    method PickNextTask() returns (t: Task)
      requires Valid() && list.tasks != []
      ensures t == list.tasks[Pick(list.tasks, policy)]
    {
      match policy {
        case FCFS => t := PickLast();
        case SJF => t := PickShortest();
        case PRIORITY => t := PickHighest();
      }
    }

    /** One turn of the loop in schedule: the picked task is run, then deleted by its name. */
    method RunNext() returns (t: Task, slice: int)
      requires Valid() && list.tasks != []
      modifies list`head, list`nodes, list`tasks, list.Repr
      ensures Valid() && t == old(list.tasks)[Pick(old(list.tasks), policy)] && slice == t.burst
      ensures HasName(old(list.tasks), t.name) && list.tasks == Deleted(old(list.tasks), t.name)
    {
      OrderStep(list.tasks, policy, []);
      t := PickNextTask();
      slice := t.burst;
      list.Delete(t);
    }

    /** schedule: runs and deletes one task after the other, each for its whole burst. */
    method Schedule() returns (runs: seq<Task>, slices: seq<int>)
      requires Valid()
      modifies list`head, list`nodes, list`tasks, list.Repr
      ensures Valid() && list.tasks == []
      ensures runs == Order(old(list.tasks), policy)
      ensures |slices| == |runs| && forall i :: 0 <= i < |runs| ==> slices[i] == runs[i].burst
    {
      runs, slices := [], [];
      while list.head != null
        invariant Valid()
        invariant Whole(runs, slices)
        invariant runs + Order(list.tasks, policy) == Order(old(list.tasks), policy)
        decreases |list.tasks|
      {
        OrderStep(list.tasks, policy, runs);
        var t, slice := RunNext();
        WholeSnoc(runs, slices, t);
        runs, slices := runs + [t], slices + [slice];
      }
      assert runs + [] == runs;
    }
  }

  /** Each task has run for its whole burst. */
  ghost predicate Whole(runs: seq<Task>, slices: seq<int>) {
    |slices| == |runs| && forall i :: 0 <= i < |runs| ==> slices[i] == runs[i].burst
  }

  lemma WholeSnoc(runs: seq<Task>, slices: seq<int>, t: Task)
    requires Whole(runs, slices)
    ensures Whole(runs + [t], slices + [t.burst])
  {
  }
}
