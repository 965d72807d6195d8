/** The round-robin scheduler: a cursor into the linked list, from which finished tasks are deleted
  * while the cursor stands in it. */
module RoundRobin {
  import opened TaskList
  import opened Sequences
  import opened ScheduleModel
  import opened RoundRobinModel
  import opened RoundRobinCursor

  lemma TraceStep(trace: seq<Slice>, js: seq<Job>, at: Cursor)
    requires Stands(js, at) && js != []
    ensures var next := Next(js, at);
      trace + [Turn(Current(js, at))] + RunList(next.0, next.1) == trace + RunList(js, at)
  {
  }

  lemma HitsTheCursor(js: seq<Job>, at: Cursor, ts: seq<Task>)
    requires Stands(js, at) && js != [] && TasksOf(Ran(js, at)) == ts
    ensures var name := Current(js, at).task.name;
      && HasName(ts, name) && FirstNamed(ts, name, 0) == Hit(js, at)
      && (Hit(js, at) == Moved(js, at) ==> Moved(js, at) == 0 && ts[|ts| - 1].name == name)
  {
    assert TasksOf(js)[Hit(js, at)].name == Current(js, at).task.name;
  }

  class Scheduler {
    var nextNode: Node?

    constructor ()
    {
      nextNode := null;
    }

    /** The cursor in memory: on a node of the list, or on a deleted one that still leads to the head. */
    ghost predicate Points(list: List, at: Cursor)
      reads this, list, list.Repr
    {
      match at
      case On(pos) => list.nodes != [] ==> pos < |list.nodes| && nextNode == list.nodes[pos]
      case Off(job) => nextNode != null && nextNode in list.Repr && nextNode.task == job.task && nextNode.next == list.head
    }

    /** The list holds the jobs `js`, the cursor is at `at`, and `all` has all tasks in it. */
    ghost predicate Ready(list: List, js: seq<Job>, at: Cursor, all: set<Task>)
      reads this, list, list.Repr, all
    {
      && list.Valid() && DistinctTasks(list.tasks)
      && (forall i :: 0 <= i < |list.tasks| ==> list.tasks[i] in all)
      && js == Jobs(list.tasks) && |js| == |list.nodes| && Stands(js, at) && Points(list, at)
      && (at.Off? ==> at.job.task in all && at.job.left == at.job.task.remaining && at.job.task !in list.tasks)
    }

    /** add */
    method Add(list: List, name: string, priority: int, burst: int) returns (t: Task)
      requires list.Valid() && DistinctTasks(list.tasks)
      modifies list
      ensures list.Valid() && DistinctTasks(list.tasks) && list.tasks == [t] + old(list.tasks)
      ensures fresh(t) && fresh(list.Repr - old(list.Repr))
      ensures t.name == name && t.priority == priority && t.burst == t.remaining == burst
    {
      t := new Task(name, priority, burst);
      list.Insert(t);
    }

    /** pickNextTask: the task under the cursor; the cursor moves on, from the end to the head. */
    method PickNextTask(list: List, ghost js: seq<Job>, ghost at: Cursor, ghost all: set<Task>) returns (t: Task)
      requires Ready(list, js, at, all) && js != []
      modifies this
      ensures t == Current(js, at).task && nextNode == list.nodes[Moved(js, at)]
    {
      assert at.On? ==> At(at.pos);
      t := nextNode.task;
      nextNode := if nextNode.next != null then nextNode.next else list.head;
    }

    /** run, and the account of what remains to the task. */
    method RunSlice(t: Task, ghost ts: seq<Task>, ghost at: Cursor) returns (s: Slice)
      requires DistinctTasks(ts) && ts != [] && Stands(Jobs(ts), at) && Current(Jobs(ts), at) == Job(t, t.remaining)
      requires at.Off? ==> t !in ts
      modifies t
      ensures s == Turn(old(Current(Jobs(ts), at))) && t.remaining == old(t.remaining) - s.units
      ensures Jobs(ts) == old(Ran(Jobs(ts), at))
    {
      var slice := if QUANTUM < t.remaining then QUANTUM else t.remaining;
      s := Slice(t, slice);
      t.remaining := t.remaining - slice;
    }

    /** delete, called for the finished task `t` when the cursor has moved on to position `n`. */
    method Finish(list: List, t: Task, ghost ran: seq<Job>, ghost n: nat, ghost all: set<Task>)
      requires Ready(list, ran, On(n), all) && HasName(list.tasks, t.name)
      requires FirstNamed(list.tasks, t.name, 0) == n ==> n == 0 && list.tasks[|list.tasks| - 1].name == t.name
      modifies list`head, list`nodes, list`tasks, list.Repr
      ensures var k := FirstNamed(old(list.tasks), t.name, 0); Ready(list, Without(ran, k), Kept(ran, n, k), all)
    {
      ghost var k, ts := FirstNamed(list.tasks, t.name, 0), list.tasks;
      assert At(k);
      list.Delete(t);
      WithoutDistinct(ts, k);
    }

    /** The next task has its slice; it stays in the list for now. */
    method PickAndRun(list: List, ghost js: seq<Job>, ghost at: Cursor, ghost all: set<Task>) returns (t: Task, s: Slice)
      requires Ready(list, js, at, all) && js != []
      modifies this, all
      ensures list.tasks == old(list.tasks) && list.Repr == old(list.Repr)
      ensures Ready(list, Ran(js, at), On(Moved(js, at)), all)
      ensures t == Current(js, at).task && t.remaining == Left(Current(js, at)) && s == Turn(Current(js, at))
    {
      t := PickNextTask(list, js, at, all);
      s := RunSlice(t, list.tasks, at);
    }

    /** One turn of the loop in schedule */
    method RunNext(list: List, ghost js: seq<Job>, ghost at: Cursor, ghost all: set<Task>) returns (s: Slice)
      requires Ready(list, js, at, all) && js != []
      modifies this, list`head, list`nodes, list`tasks, list.Repr, all
      ensures s == Turn(Current(js, at))
      ensures var next := Next(js, at); Ready(list, next.0, next.1, all)
    {
      var t;
      t, s := PickAndRun(list, js, at, all);
      if t.remaining == 0 {
        HitsTheCursor(js, at, list.tasks);
        Finish(list, t, Ran(js, at), Moved(js, at), all);
      }
    }

    /** The cursor starts at the head. */
    method Start(list: List) returns (ghost all: set<Task>)
      requires list.Valid() && DistinctTasks(list.tasks)
      modifies this
      ensures Ready(list, Jobs(list.tasks), On(0), all) && all == set t | t in list.tasks
    {
      nextNode := list.head;
      all := set t | t in list.tasks;
    }

    /** schedule: whatever the names, the loop ends, with an empty list and with the slices of the list
      * with its cursor. */
    method Schedule(list: List) returns (trace: seq<Slice>)
      requires list.Valid() && DistinctTasks(list.tasks)
      modifies this, list`head, list`nodes, list`tasks, list.Repr, list.tasks
      ensures list.Valid() && list.tasks == []
      ensures trace == RunList(old(Jobs(list.tasks)), On(0))
    {
      trace := [];
      ghost var js, at := Jobs(list.tasks), On(0);
      ghost var all := Start(list);
      while list.head != null
        invariant Ready(list, js, at, all) && list.Repr == old(list.Repr)
        invariant trace + RunList(js, at) == RunList(old(Jobs(list.tasks)), On(0))
        decreases Measure(js, at)
      {
        TraceStep(trace, js, at);
        var s := RunNext(list, js, at, all);
        trace := trace + [s];
        ghost var next := Next(js, at);
        js, at := next.0, next.1;
      }
      assert trace + [] == trace;
    }
  }
}
