/** Round robin as the code runs it: a cursor into a list from which tasks are deleted by name. The
  * names may repeat, so a deletion can hit another task than the one that has finished, even the one
  * under the cursor. */
module RoundRobinCursor {
  import opened TaskList
  import opened Sequences
  import opened RoundRobinModel

  /** The cursor stands on a node of the list, or on a deleted node whose successor is the head. */
  datatype Cursor = On(pos: nat) | Off(job: Job)

  function TasksOf(js: seq<Job>): (ts: seq<Task>)
    ensures |ts| == |js| && forall i :: 0 <= i < |js| ==> ts[i] == js[i].task
  {
    seq(|js|, i requires 0 <= i < |js| => js[i].task)
  }

  /** The position of the first job whose task has that name. */
  function Named(js: seq<Job>, name: string): (k: nat)
    ensures k <= |js| && (k < |js| ==> js[k].task.name == name)
    ensures forall j :: 0 <= j < k ==> js[j].task.name != name
  {
    FirstNamed(TasksOf(js), name, 0)
  }

  /** A cursor on a deleted node keeps the name of the last job in the list. */
  ghost predicate Stands(js: seq<Job>, at: Cursor) {
    match at
    case On(pos) => pos < |js| || (js == [] && pos == 0)
    case Off(job) => js != [] && js[|js| - 1].task.name == job.task.name
  }

  function Current(js: seq<Job>, at: Cursor): Job
    requires Stands(js, at) && js != []
  {
    match at
    case On(pos) => js[pos]
    case Off(job) => job
  }

  function Left(j: Job): int {
    j.left - Units(j.left)
  }

  /** The list after the current job has had its slice, and the position to which the cursor moved. */
  function Ran(js: seq<Job>, at: Cursor): (r: seq<Job>)
    requires Stands(js, at) && js != []
    ensures |r| == |js| && TasksOf(r) == TasksOf(js)
  {
    match at
    case On(pos) => js[pos := Job(js[pos].task, Left(js[pos]))]
    case Off(_) => js
  }

  function Moved(js: seq<Job>, at: Cursor): (n: nat)
    requires Stands(js, at) && js != []
    ensures n < |js|
  {
    match at
    case On(pos) => After(pos, |js|)
    case Off(_) => 0
  }

  /** The position the deletion of a finished job takes out. */
  function Hit(js: seq<Job>, at: Cursor): (k: nat)
    requires Stands(js, at) && js != []
    ensures k < |js| && js[k].task.name == Current(js, at).task.name
    ensures at.On? ==> k <= at.pos
    ensures Named(js, Current(js, at).task.name) == k
  {
    Named(js, Current(js, at).task.name)
  }

  /** Where the cursor, at position `n`, stands once position `k` is out of the list. */
  function Kept(js: seq<Job>, n: nat, k: nat): Cursor
    requires n < |js| && k < |js|
  {
    if |js| == 1 then On(0)
    else if k == n then Off(js[k])
    else On(if k < n then n - 1 else n)
  }

  /** One turn of the loop in schedule. */
  function Next(js: seq<Job>, at: Cursor): (r: (seq<Job>, Cursor))
    requires Stands(js, at) && js != []
    ensures Stands(r.0, r.1)
    ensures Measure(r.0, r.1) < Measure(js, at)
  {
    NextShrinks(js, at);
    var ran, n := Ran(js, at), Moved(js, at);
    if Left(Current(js, at)) != 0 then (ran, On(n))
    else
      var k := Hit(js, at);
      (Without(ran, k), Kept(ran, n, k))
  }

  /** What makes the loop end: the turns still due, and a turn off the list. */
  function Measure(js: seq<Job>, at: Cursor): nat {
    2 * TotalTurns(js) + if at.Off? then 1 else 0
  }

  lemma {:induction false} TotalTurnsWithout(js: seq<Job>, k: nat)
    requires k < |js|
    ensures TotalTurns(Without(js, k)) == TotalTurns(js) - Turns(js[k].left)
  {
    if k == 0 {
      assert Without(js, 0) == js[1..];
    } else {
      TotalTurnsWithout(js[1..], k - 1);
      assert Without(js, k)[1..] == Without(js[1..], k - 1);
    }
  }

  lemma TotalTurnsUpdate(js: seq<Job>, k: nat, j: Job)
    requires k < |js|
    ensures TotalTurns(js[k := j]) == TotalTurns(js) - Turns(js[k].left) + Turns(j.left)
  {
    TotalTurnsWithout(js, k);
    TotalTurnsWithout(js[k := j], k);
    assert Without(js, k) == Without(js[k := j], k);
  }

  lemma TurnsLeft(j: Job)
    ensures Left(j) == 0 ==> Turns(j.left) == 1 == Turns(Left(j))
    ensures Left(j) != 0 ==> Turns(Left(j)) == Turns(j.left) - 1
  {
  }

  lemma NextShrinks(js: seq<Job>, at: Cursor)
    requires Stands(js, at) && js != []
    ensures Left(Current(js, at)) != 0 ==> Measure(Ran(js, at), On(Moved(js, at))) < Measure(js, at)
    ensures Left(Current(js, at)) == 0 ==> TotalTurns(Without(Ran(js, at), Hit(js, at))) < TotalTurns(js)
  {
    TurnsLeft(Current(js, at));
    if at.On? { TotalTurnsUpdate(js, at.pos, Job(js[at.pos].task, Left(js[at.pos]))); }
    TotalTurnsWithout(Ran(js, at), Hit(js, at));
  }

  /** The slices of a whole run. */
  function RunList(js: seq<Job>, at: Cursor): seq<Slice>
    requires Stands(js, at)
    decreases Measure(js, at)
  {
    if js == [] then []
    else
      var next := Next(js, at);
      [Turn(Current(js, at))] + RunList(next.0, next.1)
  }

  // ----- when the list with its cursor is a rotating queue -----

  /** The turns due to job `i`, with the one it has already had in this round. */
  function Due(js: seq<Job>, c: nat, i: nat): nat
    requires i < |js|
  {
    Turns(js[i].left) + if i < c then 1 else 0
  }

  /** Of two jobs with the same name the one further down the list needs at least as many turns. */
  ghost predicate Ordered(js: seq<Job>, c: nat) {
    forall i, j :: 0 <= i < j < |js| && js[i].task.name == js[j].task.name ==> Due(js, c, i) <= Due(js, c, j)
  }

  /** Every deletion of the run takes out the job that has just finished. */
  ghost predicate Loyal(js: seq<Job>, at: Cursor)
    requires Stands(js, at)
    decreases Measure(js, at)
  {
    js == [] || (
      var next := Next(js, at);
      (Left(Current(js, at)) == 0 ==> at.On? && Hit(js, at) == at.pos) && Loyal(next.0, next.1))
  }

  /** An unfinished job keeps its place, and the order of the turns due is the same as before. */
  lemma OrderedAfterTurn(js: seq<Job>, c: nat)
    requires c < |js| && Left(js[c]) != 0
    ensures Ordered(Ran(js, On(c)), After(c, |js|)) <==> Ordered(js, c)
  {
    TurnsLeft(js[c]);
    var ran, n := Ran(js, On(c)), After(c, |js|);
    assert forall i :: 0 <= i < |js| ==> Due(ran, n, i) == Due(js, c, i) - if n == 0 then 1 else 0;
  }

  lemma OrderedMeansHit(js: seq<Job>, c: nat)
    requires c < |js| && Left(js[c]) == 0 && Ordered(js, c)
    ensures Hit(js, On(c)) == c
  {
    TurnsLeft(js[c]);
    var k := Hit(js, On(c));
    assert Due(js, c, c) == 1 && (k < c ==> Due(js, c, k) > 1);
  }

  /** Where position `i` of the rest of the list was before, and what is due there. */
  lemma DueOfRest(js: seq<Job>, c: nat, i: nat)
    requires c < |js| && i < |js| - 1
    ensures var rest, i' := Without(js, c), if i < c then i else i + 1;
      && rest[i] == js[i']
      && Due(rest, AfterDeletion(c, |js|), i) == Due(js, c, i') - if c + 1 < |js| then 0 else 1
  {
  }

  /** The rest of the list keeps the order when a finished job leaves it. */
  lemma RestIsOrdered(js: seq<Job>, c: nat)
    requires c < |js| && Ordered(js, c)
    ensures Ordered(Without(js, c), AfterDeletion(c, |js|))
  {
    var rest, n := Without(js, c), AfterDeletion(c, |js|);
    forall i, j | 0 <= i < j < |rest| && rest[i].task.name == rest[j].task.name
      ensures Due(rest, n, i) <= Due(rest, n, j)
    {
      DueOfRest(js, c, i);
      DueOfRest(js, c, j);
    }
  }

  lemma WholeIsOrdered(js: seq<Job>, c: nat)
    requires c < |js| && Left(js[c]) == 0 && Hit(js, On(c)) == c
    requires Ordered(Without(js, c), AfterDeletion(c, |js|))
    ensures Ordered(js, c)
  {
    TurnsLeft(js[c]);
    var rest, n := Without(js, c), AfterDeletion(c, |js|);
    forall i, j | 0 <= i < j < |js| && js[i].task.name == js[j].task.name
      ensures Due(js, c, i) <= Due(js, c, j)
    {
      if i != c && j != c {
        var i', j' := if i < c then i else i - 1, if j < c then j else j - 1;
        DueOfRest(js, c, i');
        DueOfRest(js, c, j');
        assert Due(rest, n, i') <= Due(rest, n, j');
      }
    }
  }

  /** What the loop does when the deletion, if there is one, is right. */
  lemma NextOn(js: seq<Job>, c: nat)
    requires c < |js| && (Left(js[c]) == 0 ==> Hit(js, On(c)) == c)
    ensures Left(js[c]) != 0 ==> Next(js, On(c)) == (Ran(js, On(c)), On(After(c, |js|)))
    ensures Left(js[c]) == 0 ==> Next(js, On(c)) == (Without(js, c), On(AfterDeletion(c, |js|)))
  {
    assert Without(Ran(js, On(c)), c) == Without(js, c);
  }

  lemma {:induction false} LoyalIffFrom(js: seq<Job>, c: nat)
    requires Stands(js, On(c))
    ensures Loyal(js, On(c)) <==> Ordered(js, c)
    decreases Measure(js, On(c))
  {
    if js != [] && (Left(js[c]) == 0 ==> Hit(js, On(c)) == c) {
      NextOn(js, c);
      var next := Next(js, On(c));
      LoyalIffFrom(next.0, next.1.pos);
      if Left(js[c]) != 0 {
        OrderedAfterTurn(js, c);
      } else if Ordered(js, c) {
        RestIsOrdered(js, c);
      } else if Ordered(next.0, next.1.pos) {
        WholeIsOrdered(js, c);
      }
    } else if js != [] && Ordered(js, c) {
      OrderedMeansHit(js, c);
    }
  }

  /** Every deletion takes out the task that has just finished exactly when, of any two tasks with
    * the same name, the one further down the list, which was added first, needs at least as many
    * turns as the other. */
  lemma {:induction false} LoyalIff(js: seq<Job>)
    ensures Loyal(js, On(0)) <==> forall i, j :: 0 <= i < j < |js| && js[i].task.name == js[j].task.name ==>
      Turns(js[i].left) <= Turns(js[j].left)
  {
    LoyalIffFrom(js, 0);
    assert forall i :: 0 <= i < |js| ==> Due(js, 0, i) == Turns(js[i].left);
  }

  /** Seen from the cursor, a right turn rotates the queue. */
  lemma NextRotates(js: seq<Job>, c: nat)
    requires c < |js|
    ensures Left(js[c]) != 0 ==> Rotated(Ran(js, On(c)), After(c, |js|)) == Rotate(Rotated(js, c))
    ensures Left(js[c]) == 0 ==> Rotated(Without(js, c), AfterDeletion(c, |js|)) == Rotate(Rotated(js, c))
  {
    if Left(js[c]) == 0 {
      CursorAfterDeletion(js, c);
    } else {
      var ran := Ran(js, On(c));
      CursorMoves(ran, c);
      assert Rotated(ran, c)[1..] == Rotated(js, c)[1..];
    }
  }

  // ----- with any names -----

  /** What is left for task `t`, in the list or under the cursor. */
  function LeftIn(js: seq<Job>, at: Cursor, t: Task): int {
    LeftOf(js, t) + if at.Off? && at.job.task == t then at.job.left else 0
  }

  /** No job that has had its turn in this round has a negative rest; a burst that is negative to begin
    * with is used up by the first turn. */
  ghost predicate NoDebt(js: seq<Job>, at: Cursor) {
    && (at.Off? ==> 0 <= at.job.left)
    && forall i :: 0 <= i < |js| && (at.On? ==> i < at.pos) ==> 0 <= js[i].left
  }

  lemma {:induction false} LeftOfWithout(js: seq<Job>, k: nat, t: Task)
    requires k < |js|
    ensures LeftOf(Without(js, k), t) == LeftOf(js, t) - if js[k].task == t then js[k].left else 0
  {
    if k == 0 {
      assert Without(js, 0) == js[1..];
    } else {
      LeftOfWithout(js[1..], k - 1, t);
      assert Without(js, k)[1..] == Without(js[1..], k - 1);
    }
  }

  lemma LeftOfRan(js: seq<Job>, c: nat, t: Task)
    requires c < |js|
    ensures LeftOf(Ran(js, On(c)), t) == LeftOf(js, t) - if js[c].task == t then Units(js[c].left) else 0
  {
    var ran := Ran(js, On(c));
    LeftOfWithout(js, c, t);
    LeftOfWithout(ran, c, t);
    assert Without(ran, c) == Without(js, c);
  }

  lemma NextTakesItsSlice(js: seq<Job>, at: Cursor, t: Task)
    requires Stands(js, at) && js != [] && NoDebt(js, at)
    ensures var next, j := Next(js, at), Current(js, at);
      LeftIn(next.0, next.1, t) <= LeftIn(js, at, t) - if j.task == t then Units(j.left) else 0
  {
    if at.On? { LeftOfRan(js, at.pos, t); }
    LeftOfWithout(Ran(js, at), Hit(js, at), t);
  }

  lemma NextKeepsNoDebt(js: seq<Job>, at: Cursor)
    requires Stands(js, at) && js != [] && NoDebt(js, at)
    ensures NoDebt(Next(js, at).0, Next(js, at).1)
  {
  }

  lemma {:induction false} NeverMoreFrom(js: seq<Job>, at: Cursor, t: Task)
    requires Stands(js, at) && NoDebt(js, at)
    ensures UnitsOf(RunList(js, at), t) <= LeftIn(js, at, t)
    decreases Measure(js, at)
  {
    if js != [] {
      var next := Next(js, at);
      NextTakesItsSlice(js, at, t);
      NextKeepsNoDebt(js, at);
      NeverMoreFrom(next.0, next.1, t);
      assert RunList(js, at)[1..] == RunList(next.0, next.1);
    }
  }

  /** No task ever runs for more than its burst, whatever the names. */
  lemma {:induction false} NeverMoreThanItsBurst(js: seq<Job>, t: Task)
    ensures UnitsOf(RunList(js, On(0)), t) <= LeftOf(js, t)
  {
    NeverMoreFrom(js, On(0), t);
  }

  /** But it may run for less: a task of burst 30 loses 10 of them when a task added later under the
    * same name finishes first. */
  lemma LosesToItsNamesake(a: Task, b: Task)
    requires a != b && a.name == b.name
    ensures RunList([Job(a, 30), Job(b, 10)], On(0)) == [Slice(a, 10), Slice(b, 10), Slice(a, 10), Slice(b, 0)]
    ensures !Loyal([Job(a, 30), Job(b, 10)], On(0))
  {
    var js, js1, js2 := [Job(a, 30), Job(b, 10)], [Job(a, 20), Job(b, 10)], [Job(b, 0)];
    assert Ran(js, On(0)) == js1;
    assert Ran(js1, On(1)) == [Job(a, 20), Job(b, 0)] && Without([Job(a, 20), Job(b, 0)], 0) == js2;
    assert Ran(js2, On(0)) == js2 && Without(js2, 0) == [];
    assert RunList(js2, On(0)) == [Slice(b, 0)];
    assert RunList(js2, Off(Job(a, 20))) == [Slice(a, 10)] + RunList(js2, On(0));
    assert RunList(js1, On(1)) == [Slice(b, 10)] + RunList(js2, Off(Job(a, 20)));
    assert RunList(js, On(0)) == [Slice(a, 10)] + RunList(js1, On(1));
    LoyalIff(js);
    assert Turns(js[0].left) > Turns(js[1].left) && js[0].task.name == js[1].task.name;
  }
}
