/** Round robin as a rotating queue. */
module RoundRobinModel {
  import opened TaskList
  import opened Sequences

  const QUANTUM := 10

  /** A task with what is left of its burst. */
  datatype Job = Job(task: Task, left: int)

  ghost predicate DistinctJobs(js: seq<Job>) {
    forall i, j :: 0 <= i < j < |js| ==> js[i].task != js[j].task
  }

  /** run: the task runs for that many units. */
  datatype Slice = Slice(task: Task, units: int)

  function Units(left: int): (u: int)
    ensures u <= QUANTUM && u <= left && (u == left || 0 < left - u)
  {
    if QUANTUM < left then QUANTUM else left
  }

  function Turn(j: Job): Slice {
    Slice(j.task, Units(j.left))
  }

  /** What a turn leaves of the job, if anything. */
  function Rest(j: Job): seq<Job> {
    if j.left - Units(j.left) == 0 then [] else [Job(j.task, j.left - Units(j.left))]
  }

  /** The number of turns a job takes: its burst over the quantum, rounded up, but at least one. */
  function Turns(left: int): (n: nat)
    ensures 0 < n
  {
    if left <= 0 then 1 else (left + QUANTUM - 1) / QUANTUM
  }

  function TotalTurns(q: seq<Job>): nat {
    if q == [] then 0 else Turns(q[0].left) + TotalTurns(q[1..])
  }

  lemma {:induction false} TotalTurnsConcat(a: seq<Job>, b: seq<Job>)
    ensures TotalTurns(a + b) == TotalTurns(a) + TotalTurns(b)
  {
    if a == [] {
      assert a + b == b;
    } else {
      TotalTurnsConcat(a[1..], b);
      assert (a + b)[1..] == a[1..] + b;
    }
  }

  lemma TurnCounts(j: Job)
    ensures TotalTurns(Rest(j)) == Turns(j.left) - 1
  {
    var r := Rest(j);
    assert r != [] ==> r[1..] == [];
  }

  /** The head of the queue has its turn and goes to the tail unless it is finished. */
  function Rotate(q: seq<Job>): (r: seq<Job>)
    requires q != []
    ensures TotalTurns(r) == TotalTurns(q) - 1
  {
    TotalTurnsConcat(q[1..], Rest(q[0]));
    TurnCounts(q[0]);
    q[1..] + Rest(q[0])
  }

  function RunQueue(q: seq<Job>): seq<Slice>
    decreases TotalTurns(q)
  {
    if q == [] then [] else [Turn(q[0])] + RunQueue(Rotate(q))
  }

  // ----- rounds -----

  function AllTurns(q: seq<Job>): seq<Slice> {
    if q == [] then [] else [Turn(q[0])] + AllTurns(q[1..])
  }

  function Survivors(q: seq<Job>): seq<Job> {
    if q == [] then [] else Rest(q[0]) + Survivors(q[1..])
  }

  lemma {:induction false} SurvivorsTurns(q: seq<Job>)
    ensures TotalTurns(Survivors(q)) + |q| == TotalTurns(q)
  {
    if q != [] {
      SurvivorsTurns(q[1..]);
      TurnCounts(q[0]);
      TotalTurnsConcat(Rest(q[0]), Survivors(q[1..]));
    }
  }

  /** Round after round, every unfinished task has one turn, always in the order of the list. */
  function Rounds(q: seq<Job>): seq<Slice>
    decreases TotalTurns(q)
  {
    if q == [] then []
    else
      SurvivorsTurns(q);
      AllTurns(q) + Rounds(Survivors(q))
  }

  lemma RotateAhead(todo: seq<Job>, done: seq<Job>)
    requires todo != []
    ensures RunQueue(todo + done) == [Turn(todo[0])] + RunQueue(todo[1..] + (done + Rest(todo[0])))
  {
    var q := todo + done;
    assert q[0] == todo[0] && q[1..] == todo[1..] + done;
    Associative(todo[1..], done, Rest(todo[0]));
  }

  lemma {:induction false} RunThrough(todo: seq<Job>, done: seq<Job>)
    ensures RunQueue(todo + done) == AllTurns(todo) + RunQueue(done + Survivors(todo))
    decreases |todo|
  {
    if todo == [] {
      assert todo + done == done && done + Survivors(todo) == done;
    } else {
      var j, rest := todo[0], todo[1..];
      RotateAhead(todo, done);
      RunThrough(rest, done + Rest(j));
      Associative(done, Rest(j), Survivors(rest));
      Associative([Turn(j)], AllTurns(rest), RunQueue(done + Survivors(todo)));
    }
  }

  /** The rotating queue runs in rounds. */
  lemma {:induction false} QueueRunsInRounds(q: seq<Job>)
    ensures RunQueue(q) == Rounds(q)
    decreases TotalTurns(q)
  {
    if q != [] {
      SurvivorsTurns(q);
      RunThrough(q, []);
      assert q + [] == q && [] + Survivors(q) == Survivors(q);
      QueueRunsInRounds(Survivors(q));
    }
  }

  // ----- totals -----

  function LeftOf(q: seq<Job>, t: Task): int {
    if q == [] then 0 else (if q[0].task == t then q[0].left else 0) + LeftOf(q[1..], t)
  }

  function TurnsOf(q: seq<Job>, t: Task): nat {
    if q == [] then 0 else (if q[0].task == t then Turns(q[0].left) else 0) + TurnsOf(q[1..], t)
  }

  function UnitsOf(trace: seq<Slice>, t: Task): int {
    if trace == [] then 0 else (if trace[0].task == t then trace[0].units else 0) + UnitsOf(trace[1..], t)
  }

  function SlicesOf(trace: seq<Slice>, t: Task): nat {
    if trace == [] then 0 else (if trace[0].task == t then 1 else 0) + SlicesOf(trace[1..], t)
  }

  lemma {:induction false} ConcatOf(a: seq<Job>, b: seq<Job>, t: Task)
    ensures LeftOf(a + b, t) == LeftOf(a, t) + LeftOf(b, t)
    ensures TurnsOf(a + b, t) == TurnsOf(a, t) + TurnsOf(b, t)
  {
    if a == [] {
      assert a + b == b;
    } else {
      ConcatOf(a[1..], b, t);
      assert (a + b)[1..] == a[1..] + b;
    }
  }

  lemma RestOf(j: Job, t: Task)
    ensures LeftOf(Rest(j), t) == if j.task == t then j.left - Units(j.left) else 0
    ensures TurnsOf(Rest(j), t) == if j.task == t then Turns(j.left) - 1 else 0
  {
    var r := Rest(j);
    assert r != [] ==> r[1..] == [];
  }

  /** A task runs for exactly its burst, in as many slices as the quantum asks for. */
  lemma {:induction false} RunsItsBurst(q: seq<Job>, t: Task)
    ensures UnitsOf(RunQueue(q), t) == LeftOf(q, t)
    ensures SlicesOf(RunQueue(q), t) == TurnsOf(q, t)
    decreases TotalTurns(q)
  {
    if q != [] {
      RunsItsBurst(Rotate(q), t);
      ConcatOf(q[1..], Rest(q[0]), t);
      RestOf(q[0], t);
      assert RunQueue(q)[1..] == RunQueue(Rotate(q));
    }
  }

  lemma {:induction false} OneJob(q: seq<Job>, i: nat)
    requires i < |q| && DistinctJobs(q)
    ensures LeftOf(q, q[i].task) == q[i].left && TurnsOf(q, q[i].task) == Turns(q[i].left)
  {
    if i == 0 {
      NoJob(q[1..], q[0].task);
    } else {
      OneJob(q[1..], i - 1);
      assert q[1..][i - 1] == q[i];
    }
  }

  lemma {:induction false} NoJob(q: seq<Job>, t: Task)
    requires forall i :: 0 <= i < |q| ==> q[i].task != t
    ensures LeftOf(q, t) == 0 && TurnsOf(q, t) == 0
  {
    if q != [] { NoJob(q[1..], t); }
  }

  // ----- a list with a cursor -----

  /** The list from position `c` on, then the part before it. */
  function Rotated<T>(s: seq<T>, c: nat): (r: seq<T>)
    requires c <= |s|
    ensures |r| == |s|
    ensures forall i :: 0 <= i < |s| ==> r[i] == if c + i < |s| then s[c + i] else s[c + i - |s|]
  {
    seq(|s|, i requires 0 <= i < |s| => if c + i < |s| then s[c + i] else s[c + i - |s|])
  }

  /** The position after `c`, which wraps around to the head. */
  function After(c: nat, n: nat): nat {
    if c + 1 < n then c + 1 else 0
  }

  lemma CursorMoves<T>(s: seq<T>, c: nat)
    requires c < |s|
    ensures Rotated(s, After(c, |s|)) == Rotated(s, c)[1..] + [s[c]]
  {
  }

  /** The position of that cursor once position `c` is out of the list. */
  function AfterDeletion(c: nat, n: nat): nat {
    if c + 1 < n then c else 0
  }

  /** Deleting the task that has just run leaves the cursor, one position earlier unless it wrapped. */
  lemma CursorAfterDeletion<T>(s: seq<T>, c: nat)
    requires c < |s|
    ensures Rotated(Without(s, c), AfterDeletion(c, |s|)) == Rotated(s, c)[1..]
  {
  }

  ghost function Jobs(ts: seq<Task>): (q: seq<Job>)
    reads ts
    ensures |q| == |ts| && forall i :: 0 <= i < |ts| ==> q[i] == Job(ts[i], ts[i].remaining)
  {
    seq(|ts|, i requires 0 <= i < |ts| reads ts => Job(ts[i], ts[i].remaining))
  }
}
