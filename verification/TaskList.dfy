/** The singly linked list under every scheduler. Tasks are objects; the list holds references. */
module TaskList {
  import opened Sequences

  class Task {
    const name: string
    const priority: int
    const burst: int
    var remaining: int

    constructor (name: string, priority: int, burst: int)
      ensures this.name == name && this.priority == priority && this.burst == burst && remaining == burst
    {
      this.name, this.priority, this.burst, remaining := name, priority, burst, burst;
    }
  }

  // ----- the list as a sequence -----

  /** The position of the first task of that name, from position `i` on. */
  function FirstNamed(ts: seq<Task>, name: string, i: nat): (k: nat)
    requires i <= |ts|
    ensures i <= k <= |ts| && (k < |ts| ==> ts[k].name == name)
    ensures forall j :: i <= j < k ==> ts[j].name != name
    decreases |ts| - i
  {
    if i == |ts| || ts[i].name == name then i else FirstNamed(ts, name, i + 1)
  }

  ghost predicate HasName(ts: seq<Task>, name: string) {
    exists i :: 0 <= i < |ts| && ts[i].name == name
  }

  /** delete: the first task of that name leaves the list. */
  function Deleted(ts: seq<Task>, name: string): seq<Task>
    requires HasName(ts, name)
  {
    Without(ts, FirstNamed(ts, name, 0))
  }

  // ----- the list in memory -----

  class Node {
    var task: Task
    var next: Node?

    constructor (task: Task, next: Node?)
      ensures this.task == task && this.next == next
    {
      this.task, this.next := task, next;
    }
  }

  ghost predicate Linked(ns: seq<Node>, ts: seq<Task>)
    reads ns
  {
    && |ns| == |ts|
    && forall i {:trigger At(i)} :: 0 <= i < |ns| && At(i) ==>
         ns[i].task == ts[i] && ns[i].next == if i == |ns| - 1 then null else ns[i + 1]
  }

  /** Links that end in null rule out a cycle. */
  lemma {:induction false} Acyclic(ns: seq<Node>, ts: seq<Task>, i: nat, j: nat)
    requires Linked(ns, ts) && i < j < |ns|
    ensures ns[i] != ns[j]
    decreases |ns| - j
  {
    assert At(i) && At(j);
    if j < |ns| - 1 { Acyclic(ns, ts, i + 1, j + 1); }
  }

  lemma OnlyAt(ns: seq<Node>, ts: seq<Task>, k: nat)
    requires Linked(ns, ts) && k < |ns|
    ensures forall i {:trigger At(i)} :: 0 <= i < |ns| && i != k ==> ns[i] != ns[k]
  {
    forall i | 0 <= i < |ns| && i != k
      ensures ns[i] != ns[k]
    {
      if i < k { Acyclic(ns, ts, i, k); } else { Acyclic(ns, ts, k, i); }
    }
  }

  class List {
    var head: Node?
    ghost var nodes: seq<Node>
    ghost var tasks: seq<Task>
    ghost var Repr: set<Node>

    ghost predicate Valid()
      reads this, Repr
    {
      && (forall i :: 0 <= i < |nodes| ==> nodes[i] in Repr)
      && head == (if nodes == [] then null else nodes[0])
      && Linked(nodes, tasks)
    }

    constructor ()
      ensures Valid() && Repr == {} && tasks == []
    {
      head, nodes, tasks, Repr := null, [], [], {};
    }

    /** insert: the new task becomes the head of the list. */
    method Insert(task: Task)
      requires Valid()
      modifies this
      ensures Valid() && fresh(Repr - old(Repr)) && old(Repr) <= Repr && tasks == [task] + old(tasks)
    {
      var node := new Node(task, head);
      head := node;
      nodes := [node] + nodes;
      tasks := [task] + tasks;
      Repr := Repr + {node};
      forall i | 0 <= i < |nodes| && At(i)
        ensures nodes[i].task == tasks[i] && nodes[i].next == if i == |nodes| - 1 then null else nodes[i + 1]
      {
        assert At(i - 1);
      }
    }

    /** Unlinks node `k`, the successor of `prev` or the head. */
    method Unlink(prev: Node?, temp: Node, ghost k: nat)
      requires Valid() && k < |nodes| && temp == nodes[k]
      requires prev == if k == 0 then null else nodes[k - 1]
      modifies this`head, this`nodes, this`tasks, if prev == null then {} else {prev}
      ensures Valid() && nodes == Without(old(nodes), k) && tasks == Without(old(tasks), k)
      ensures temp.next == old(temp.next) && temp.task == old(temp.task)
    {
      ghost var ns, ts := nodes, tasks;
      assert At(k);
      if prev == null {
        head := temp.next;
      } else {
        OnlyAt(ns, ts, k - 1);
        assert At(k - 1);
        prev.next := temp.next;
      }
      nodes, tasks := Without(ns, k), Without(ts, k);
      forall i | 0 <= i < |nodes| && At(i)
        ensures nodes[i].task == tasks[i] && nodes[i].next == if i == |nodes| - 1 then null else nodes[i + 1]
      {
        assert At(i + 1);
      }
    }

    /** delete: unlinks the first node whose task has that name. That node itself stays as it was. */
    method Delete(task: Task)
      requires Valid() && HasName(tasks, task.name)
      modifies this`head, this`nodes, this`tasks, Repr
      ensures Valid() && tasks == Deleted(old(tasks), task.name)
      ensures nodes == Without(old(nodes), FirstNamed(old(tasks), task.name, 0))
      ensures var gone := old(nodes)[FirstNamed(old(tasks), task.name, 0)];
        gone.next == old(gone.next) && gone.task == old(gone.task)
    {
      ghost var k := FirstNamed(tasks, task.name, 0);
      assert At(0);
      if task.name == head.task.name {
        Unlink(null, head, 0);
      } else {
        var prev, temp := head, head.next;
        ghost var i := 1;
        while temp.task.name != task.name
          invariant 0 < i <= k < |nodes| && prev == nodes[i - 1] && temp == nodes[i]
          decreases k - i
        {
          assert At(i);
          prev, temp, i := temp, temp.next, i + 1;
        }
        assert At(i);
        Unlink(prev, temp, k);
      }
    }
  }
}
