/** Exactly when the list with its cursor runs as a rotating queue, names that repeat included. */
module RoundRobinExact {
  import opened TaskList
  import opened Sequences
  import opened RoundRobinModel
  import opened RoundRobinCursor

  // ----- the condition, on names and rounds -----

  /** The job at `j` finishes while that at `i`, of the same name, has exactly one turn left, and it does
    * so at the end of a list that begins with jobs of that name up to `i`. */
  ghost predicate Spared(names: seq<string>, due: seq<int>, i: nat, j: nat)
    requires i < j < |due| == |names|
  {
    && due[i] == due[j] + 1
    && (forall k :: 0 <= k < i && due[k] > due[j] ==> names[k] == names[j])
    && (forall k :: j < k < |due| ==> due[k] < due[j])
  }

  /** Each job that outlasts a namesake further down the list is spared. */
  ghost predicate AllSpared(names: seq<string>, due: seq<int>)
    requires |due| == |names|
  {
    forall i, j :: 0 <= i < j < |due| && names[i] == names[j] && due[i] > due[j] ==> Spared(names, due, i, j)
  }

  lemma SparedShifted(names: seq<string>, due: seq<int>, due': seq<int>, d: int)
    requires |due| == |due'| == |names| && AllSpared(names, due)
    requires forall i :: 0 <= i < |due| ==> due'[i] == due[i] - d
    ensures AllSpared(names, due')
  {
    forall i, j | 0 <= i < j < |due| && names[i] == names[j] && due'[i] > due'[j]
      ensures Spared(names, due', i, j)
    {
      assert Spared(names, due, i, j);
    }
  }

  lemma SparedWithout(names: seq<string>, due: seq<int>, x: nat)
    requires x < |due| == |names| && AllSpared(names, due)
    ensures AllSpared(Without(names, x), Without(due, x))
  {
    var ns, ds := Without(names, x), Without(due, x);
    forall i, j | 0 <= i < j < |ds| && ns[i] == ns[j] && ds[i] > ds[j]
      ensures Spared(ns, ds, i, j)
    {
      var i', j' := if i < x then i else i + 1, if j < x then j else j + 1;
      assert Spared(names, due, i', j');
    }
  }

  /** A job that finishes before all others, and outlives no earlier namesake, makes no difference. */
  lemma SparedWith(names: seq<string>, due: seq<int>, x: nat)
    requires x < |due| == |names| && AllSpared(Without(names, x), Without(due, x))
    requires forall i :: 0 <= i < |due| ==> due[x] <= due[i] && (i < x ==> due[x] < due[i] && names[i] != names[x])
    ensures AllSpared(names, due)
  {
    var ns, ds := Without(names, x), Without(due, x);
    forall i, j | 0 <= i < j < |due| && names[i] == names[j] && due[i] > due[j]
      ensures Spared(names, due, i, j)
    {
      assert i != x && j != x;
      var i', j' := if i < x then i else i - 1, if j < x then j else j - 1;
      assert names[i] == ns[i'] && due[i] == ds[i'] && names[j] == ns[j'] && due[j] == ds[j'];
      assert Spared(ns, ds, i', j');
      forall k | 0 <= k < i && due[k] > due[j]
        ensures names[k] == names[j]
      {
        assert k != x;
        assert k < x ==> ns[k] == names[k] && ds[k] == due[k];
        assert k > x ==> ns[k - 1] == names[k] && ds[k - 1] == due[k];
      }
      forall k | j < k < |due|
        ensures due[k] < due[j]
      {
        assert k < x ==> ds[k] == due[k];
        assert k > x ==> ds[k - 1] == due[k];
      }
    }
  }

  // ----- the condition on a list with a cursor -----

  function NamesOf(js: seq<Job>): (r: seq<string>)
    ensures |r| == |js| && forall i :: 0 <= i < |js| ==> r[i] == js[i].task.name
  {
    seq(|js|, i requires 0 <= i < |js| => js[i].task.name)
  }

  function Dues(js: seq<Job>, c: nat): (r: seq<int>)
    ensures |r| == |js| && forall i :: 0 <= i < |js| ==> r[i] == Due(js, c, i)
  {
    seq(|js|, i requires 0 <= i < |js| => Due(js, c, i))
  }

  /** The names that repeat do no harm. */
  ghost predicate Harmless(js: seq<Job>, c: nat) {
    AllSpared(NamesOf(js), Dues(js, c))
  }

  lemma HarmlessAfterTurn(js: seq<Job>, c: nat)
    requires c < |js| && Left(js[c]) != 0
    ensures Harmless(Ran(js, On(c)), After(c, |js|)) <==> Harmless(js, c)
  {
    TurnsLeft(js[c]);
    var ran, n := Ran(js, On(c)), After(c, |js|);
    var d := if n == 0 then 1 else 0;
    assert NamesOf(ran) == NamesOf(js);
    assert forall i :: 0 <= i < |js| ==> Dues(ran, n)[i] == Dues(js, c)[i] - d;
    if Harmless(js, c) { SparedShifted(NamesOf(js), Dues(js, c), Dues(ran, n), d); }
    if Harmless(ran, n) { SparedShifted(NamesOf(js), Dues(ran, n), Dues(js, c), -d); }
  }

  lemma HarmlessAfterDeletion(js: seq<Job>, c: nat)
    requires c < |js| && Left(js[c]) == 0 && Hit(js, On(c)) == c
    ensures Harmless(Without(js, c), AfterDeletion(c, |js|)) <==> Harmless(js, c)
  {
    TurnsLeft(js[c]);
    var rest, n := Without(js, c), AfterDeletion(c, |js|);
    var d := if c + 1 < |js| then 0 else 1;
    var names, due := Without(NamesOf(js), c), Without(Dues(js, c), c);
    assert NamesOf(rest) == names;
    forall i | 0 <= i < |rest|
      ensures Dues(rest, n)[i] == due[i] - d
    {
      DueOfRest(js, c, i);
    }
    if Harmless(js, c) {
      SparedWithout(NamesOf(js), Dues(js, c), c);
      SparedShifted(names, due, Dues(rest, n), d);
    }
    if Harmless(rest, n) {
      SparedShifted(names, Dues(rest, n), due, -d);
      SparedWith(NamesOf(js), Dues(js, c), c);
    }
  }

  // ----- a deletion that hits the head under the cursor -----

  /** All jobs of that name have one turn left and are in front of the others. */
  ghost predicate InFront(body: seq<Job>, name: string) {
    forall i :: 0 <= i < |body| && body[i].task.name == name ==>
      Turns(body[i].left) == 1 && forall k :: 0 <= k < i ==> body[k].task.name == name
  }

  /** A job `d`, deleted from the head of the list although it has one turn left, is followed there by
    * jobs of its name that have one turn left too, and by no others of that name. */
  ghost predicate ChainFine(d: Job, body: seq<Job>) {
    Turns(d.left) == 1 && Harmless(body, 0) && InFront(body, d.task.name)
  }

  lemma WithoutFirst(b: Job, rest: seq<Job>)
    ensures Without([b] + rest, 0) == rest
  {
  }

  lemma InFrontNext(b: Job, rest: seq<Job>)
    requires Turns(b.left) == 1
    ensures InFront([b] + rest, b.task.name) <==> InFront(rest, b.task.name)
  {
    var body, name := [b] + rest, b.task.name;
    assert forall i :: 0 <= i < |rest| ==> body[i + 1] == rest[i];
    assert forall i :: 0 < i < |body| ==> rest[i - 1] == body[i];
    if InFront(rest, name) {
      forall i | 0 <= i < |body| && body[i].task.name == name
        ensures Turns(body[i].left) == 1 && forall k :: 0 <= k < i ==> body[k].task.name == name
      {
        if i > 0 {
          assert rest[i - 1].task.name == name;
          assert forall k :: 0 < k < i ==> rest[k - 1] == body[k];
        }
      }
    }
    if InFront(body, name) {
      forall i | 0 <= i < |rest| && rest[i].task.name == name
        ensures Turns(rest[i].left) == 1 && forall k :: 0 <= k < i ==> rest[k].task.name == name
      {
        assert body[i + 1].task.name == name;
        assert forall k :: 0 <= k < i ==> body[k + 1] == rest[k];
      }
    }
  }

  lemma ChainFineNext(d: Job, b: Job, rest: seq<Job>)
    requires Turns(d.left) == 1 && b.task.name == d.task.name
    ensures ChainFine(d, [b] + rest) <==> ChainFine(b, rest)
  {
    var body := [b] + rest;
    if Turns(b.left) == 1 {
      WithoutFirst(b, rest);
      TurnsLeft(b);
      assert Hit(body, On(0)) == 0;
      HarmlessAfterDeletion(body, 0);
      InFrontNext(b, rest);
    } else {
      assert body[0] == b;
    }
  }

  // ----- a task that is lost -----

  lemma {:induction false} NeverRuns(js: seq<Job>, at: Cursor, t: Task)
    requires Stands(js, at) && (at.Off? ==> at.job.task != t) && forall i :: 0 <= i < |js| ==> js[i].task != t
    ensures SlicesOf(RunList(js, at), t) == 0 == UnitsOf(RunList(js, at), t)
    decreases Measure(js, at)
  {
    if js != [] {
      var next := Next(js, at);
      NeverRuns(next.0, next.1, t);
      assert RunList(js, at)[1..] == RunList(next.0, next.1);
    }
  }

  lemma {:induction false} TurnsOfMember(q: seq<Job>, i: nat)
    requires i < |q|
    ensures TurnsOf(q, q[i].task) > 0
  {
    if i > 0 { TurnsOfMember(q[1..], i - 1); }
  }

  ghost predicate Positive(q: seq<Job>) {
    forall i :: 0 <= i < |q| ==> q[i].left > 0
  }

  /** In trace `a` some task of `q` runs for less than in trace `b`. */
  ghost predicate Loses(a: seq<Slice>, b: seq<Slice>, q: seq<Job>) {
    exists i :: 0 <= i < |q| && UnitsOf(a, q[i].task) < UnitsOf(b, q[i].task)
  }

  /** Trace `a` is the run of the queue, or else some task loses a part of its burst. */
  ghost predicate RunsOrLoses(a: seq<Slice>, q: seq<Job>) {
    a != RunQueue(q) ==> Loses(a, RunQueue(q), q)
  }

  /** A task that is neither in the list nor under the cursor tells the run from that of a queue with it. */
  lemma LostTask(js: seq<Job>, at: Cursor, q: seq<Job>, i: nat)
    requires Stands(js, at) && i < |q| && (at.Off? ==> at.job.task != q[i].task)
    requires forall k :: 0 <= k < |js| ==> js[k].task != q[i].task
    ensures RunList(js, at) != RunQueue(q)
    ensures DistinctJobs(q) && q[i].left > 0 ==> RunsOrLoses(RunList(js, at), q)
  {
    NeverRuns(js, at, q[i].task);
    RunsItsBurst(q, q[i].task);
    TurnsOfMember(q, i);
    if DistinctJobs(q) { OneJob(q, i); }
  }

  /** When both are at the same job, the runs are equal if the rests are. */
  lemma HeadsAgree(js: seq<Job>, at: Cursor, q: seq<Job>)
    requires Stands(js, at) && js != [] && q != [] && q[0] == Current(js, at)
    ensures var next := Next(js, at);
      && (RunList(js, at) == RunQueue(q) <==> RunList(next.0, next.1) == RunQueue(Rotate(q)))
      && (RunsOrLoses(RunList(next.0, next.1), Rotate(q)) ==> RunsOrLoses(RunList(js, at), q))
  {
    var next := Next(js, at);
    var a, b := RunList(next.0, next.1), RunQueue(Rotate(q));
    ConsAgree(Turn(q[0]), a, b);
    if a != b && RunsOrLoses(a, Rotate(q)) {
      var q' := Rotate(q);
      RotatedTasks(q);
      var i :| 0 <= i < |q'| && UnitsOf(a, q'[i].task) < UnitsOf(b, q'[i].task);
      var k := if i < |q| - 1 then i + 1 else 0;
      ConsLoses(Turn(q[0]), a, b, q[k].task);
      assert Loses([Turn(q[0])] + a, [Turn(q[0])] + b, q);
    }
  }

  lemma RotatedTasks(q: seq<Job>)
    requires q != []
    ensures forall i :: 0 <= i < |Rotate(q)| ==> Rotate(q)[i].task == q[if i < |q| - 1 then i + 1 else 0].task
  {
  }

  lemma ConsLoses(x: Slice, a: seq<Slice>, b: seq<Slice>, t: Task)
    requires UnitsOf(a, t) < UnitsOf(b, t)
    ensures UnitsOf([x] + a, t) < UnitsOf([x] + b, t)
  {
    assert ([x] + a)[1..] == a && ([x] + b)[1..] == b;
  }

  lemma ConsAgree<T>(x: T, a: seq<T>, b: seq<T>)
    ensures [x] + a == [x] + b <==> a == b
  {
    assert ([x] + a)[1..] == a && ([x] + b)[1..] == b;
  }

  // ----- the two together -----

  lemma WithoutLast(body: seq<Job>, z: Job)
    ensures Without(body + [z], |body|) == body
  {
  }

  /** Where the cursor goes from a deleted node `d`: the list begins with `body` and ends with `z`. */
  lemma NextOff(d: Job, body: seq<Job>, z: Job)
    requires z.task.name == d.task.name
    ensures var js, k := body + [z], Named(body + [z], d.task.name);
      && k <= |body| && Hit(js, Off(d)) == k
      && Next(js, Off(d)) == if Left(d) != 0 then (js, On(0)) else (Without(js, k), Kept(js, 0, k))
  {
    assert (body + [z])[|body|] == z;
  }

  /** Job `d` is none of `js`, and these are distinct. */
  ghost predicate Apart(js: seq<Job>, d: Job) {
    DistinctJobs(js) && forall i :: 0 <= i < |js| ==> js[i].task != d.task
  }

  /** What is left of the jobs that have had their turn in this round, and go on, is positive. */
  ghost predicate Begun(js: seq<Job>, c: nat) {
    forall k :: 0 <= k < c && k < |js| ==> js[k].left > 0
  }

  lemma LeftIsPositive(j: Job)
    requires Left(j) != 0
    ensures Left(j) > 0
  {
  }

  lemma RotateApart(d: Job, body: seq<Job>, z: Job)
    requires Apart(body + [z], d)
    ensures DistinctJobs(Rotate([d] + body)) && DistinctJobs(body)
  {
    var q, js := [d] + body, body + [z];
    assert q[1..] == body && forall i :: 0 <= i < |body| ==> body[i] == js[i];
    assert forall i :: 0 <= i < |body| ==> Rotate(q)[i] == body[i];
  }

  /** The deleted node stays unfinished and is lost. */
  lemma ChainLost(d: Job, body: seq<Job>, z: Job)
    requires z.task.name == d.task.name && Apart(body + [z], d) && Left(d) != 0
    ensures RunList(body + [z], Off(d)) != RunQueue([d] + body) && !ChainFine(d, body)
    ensures Positive([d] + body) ==> RunsOrLoses(RunList(body + [z], Off(d)), [d] + body)
  {
    var q := [d] + body;
    NextOff(d, body, z);
    HeadsAgree(body + [z], Off(d), q);
    TurnsLeft(d);
    assert q[1..] == body && Rotate(q)[|body|].task == d.task;
    RotateApart(d, body, z);
    LeftIsPositive(d);
    LostTask(body + [z], On(0), Rotate(q), |body|);
  }

  /** It finishes and hits a job in the middle of the list, which is lost. */
  lemma MiddleIsOut(d: Job, body: seq<Job>, z: Job, k: nat)
    requires z.task.name == d.task.name && Apart(body + [z], d) && Left(d) == 0
    requires 0 < k < |body| && k == Named(body + [z], d.task.name)
    ensures var next := Next(body + [z], Off(d));
      && next.1 == On(0) && forall i :: 0 <= i < |next.0| ==> next.0[i].task != body[k].task
  {
    var js := body + [z];
    NextOff(d, body, z);
    assert body[k] == js[k];
    assert forall i :: 0 <= i < |js| && i != k ==> js[i].task != js[k].task;
  }

  lemma ChainHitsMiddle(d: Job, body: seq<Job>, z: Job, k: nat)
    requires z.task.name == d.task.name && Apart(body + [z], d) && Left(d) == 0
    requires 0 < k < |body| && k == Named(body + [z], d.task.name)
    ensures RunList(body + [z], Off(d)) != RunQueue([d] + body) && !ChainFine(d, body)
    ensures Positive([d] + body) ==> RunsOrLoses(RunList(body + [z], Off(d)), [d] + body)
  {
    var js, q, next := body + [z], [d] + body, Next(body + [z], Off(d));
    MiddleIsOut(d, body, z, k);
    HeadsAgree(js, Off(d), q);
    assert Rotate(q) == body && q[k + 1] == body[k];
    RotateApart(d, body, z);
    LostTask(next.0, next.1, body, k);
    assert body[k] == js[k] && body[0] == js[0];
  }

  /** The deleted node runs and hits what is left of its name, the jobs in front one after the other. */
  lemma {:induction false} ChainIff(d: Job, body: seq<Job>, z: Job)
    requires z.task.name == d.task.name && Apart(body + [z], d)
    ensures RunList(body + [z], Off(d)) == RunQueue([d] + body) <==> ChainFine(d, body)
    ensures Positive([d] + body) ==> RunsOrLoses(RunList(body + [z], Off(d)), [d] + body)
    decreases Measure(body + [z], Off(d)), 0
  {
    var js, q := body + [z], [d] + body;
    var k := Named(js, d.task.name);
    NextOff(d, body, z);
    if Left(d) != 0 {
      ChainLost(d, body, z);
    } else if 0 < k < |body| {
      ChainHitsMiddle(d, body, z, k);
    } else {
      HeadsAgree(js, Off(d), q);
      TurnsLeft(d);
      assert Rotate(q) == body == q[1..];
      if k == |body| {
        ChainHitsLast(d, body, z);
      } else {
        ChainHitsFirst(d, body, z);
      }
    }
  }

  lemma {:induction false} ChainHitsLast(d: Job, body: seq<Job>, z: Job)
    requires z.task.name == d.task.name && Apart(body + [z], d) && Left(d) == 0
    requires Named(body + [z], d.task.name) == |body|
    ensures var next := Next(body + [z], Off(d));
      && (RunList(next.0, next.1) == RunQueue(body) <==> ChainFine(d, body))
      && (Positive(body) ==> RunsOrLoses(RunList(next.0, next.1), body))
    decreases Measure(body + [z], Off(d)), 0, 0
  {
    NextOff(d, body, z);
    WithoutLast(body, z);
    TurnsLeft(d);
    assert forall i :: 0 <= i < |body| ==> body[i] == (body + [z])[i];
    ChainEnds(d, body);
    if body != [] {
      QueueRunIffFrom(body, 0);
      assert Rotated(body, 0) == body;
    }
  }

  lemma {:induction false} ChainHitsFirst(d: Job, body: seq<Job>, z: Job)
    requires z.task.name == d.task.name && Apart(body + [z], d) && Left(d) == 0
    requires body != [] && Named(body + [z], d.task.name) == 0
    ensures var next := Next(body + [z], Off(d));
      && (RunList(next.0, next.1) == RunQueue(body) <==> ChainFine(d, body))
      && (Positive(body) ==> RunsOrLoses(RunList(next.0, next.1), body))
    decreases Measure(body + [z], Off(d)), 0, 0
  {
    var js, b, rest := body + [z], body[0], body[1..];
    NextOff(d, body, z);
    TurnsLeft(d);
    assert body == [b] + rest && js == [b] + (rest + [z]);
    WithoutFirst(b, rest + [z]);
    assert forall i :: 0 <= i < |rest + [z]| ==> (rest + [z])[i] == js[i + 1];
    ChainIff(b, rest, z);
    ChainFineNext(d, b, rest);
  }

  lemma ChainEnds(d: Job, body: seq<Job>)
    requires Turns(d.left) == 1 && forall i :: 0 <= i < |body| ==> body[i].task.name != d.task.name
    ensures ChainFine(d, body) <==> Harmless(body, 0)
  {
  }

  /** The queue when the job at `c` has finished, whatever is deleted. */
  function Rested(js: seq<Job>, c: nat): seq<Job>
    requires c < |js|
  {
    js[c + 1..] + js[..c]
  }

  lemma RestedIsRotate(js: seq<Job>, c: nat)
    requires c < |js| && Left(js[c]) == 0
    ensures Rotate(Rotated(js, c)) == Rested(js, c)
  {
  }

  /** The first wrong deletion, at the job at `c`. */
  lemma {:induction false} WrongDeletion(js: seq<Job>, c: nat)
    requires c < |js| && DistinctJobs(js) && Left(js[c]) == 0 && Hit(js, On(c)) != c
    ensures RunList(js, On(c)) == RunQueue(Rotated(js, c)) <==> Harmless(js, c)
    ensures Begun(js, c) ==> RunsOrLoses(RunList(js, On(c)), Rotated(js, c))
    decreases Measure(js, On(c)), 0
  {
    HeadsAgree(js, On(c), Rotated(js, c));
    RestedIsRotate(js, c);
    if Hit(js, On(c)) == 0 && c == |js| - 1 {
      LastHitsHead(js, js[0], js[1..c], js[c]);
      HarmlessLast(js);
    } else {
      HarmfulHit(js, c);
      HitIsLost(js, c);
    }
  }

  /** The last job hits the first, under the cursor. */
  lemma NextLast(js: seq<Job>, h: Job, body: seq<Job>, l: Job)
    requires js == [h] + body + [l] && Left(l) == 0 && Hit(js, On(|js| - 1)) == 0
    ensures Next(js, On(|js| - 1)) == (body + [Job(l.task, 0)], Off(h))
  {
    var z := Job(l.task, 0);
    assert Ran(js, On(|js| - 1)) == [h] + (body + [z]);
    WithoutFirst(h, body + [z]);
  }

  lemma LastIsApart(h: Job, body: seq<Job>, l: Job, z: Job)
    requires DistinctJobs([h] + body + [l]) && z.task == l.task
    ensures Apart(body + [z], h)
  {
    var js := [h] + body + [l];
    assert forall i :: 0 <= i < |body + [z]| ==> (body + [z])[i].task == js[i + 1].task;
    assert js[0] == h;
  }

  lemma {:induction false} LastHitsHead(js: seq<Job>, h: Job, body: seq<Job>, l: Job)
    requires js == [h] + body + [l] && DistinctJobs(js) && Left(l) == 0 && Hit(js, On(|js| - 1)) == 0
    ensures var next := Next(js, On(|js| - 1));
      && (RunList(next.0, next.1) == RunQueue(Rested(js, |js| - 1)) <==> ChainFine(h, body))
      && (Begun(js, |js| - 1) ==> RunsOrLoses(RunList(next.0, next.1), Rested(js, |js| - 1)))
    decreases Measure(js, On(|js| - 1)), 0, 0
  {
    NextLast(js, h, body, l);
    LastIsApart(h, body, l, Job(l.task, 0));
    assert Rested(js, |js| - 1) == [h] + body;
    ChainIff(h, body, Job(l.task, 0));
  }

  lemma RestedDistinct(js: seq<Job>, c: nat)
    requires c < |js| && DistinctJobs(js)
    ensures DistinctJobs(Rested(js, c))
  {
  }

  lemma HitIsLost(js: seq<Job>, c: nat)
    requires c < |js| && DistinctJobs(js) && Left(js[c]) == 0
    requires Hit(js, On(c)) != c && (Hit(js, On(c)) != 0 || c != |js| - 1)
    ensures var next := Next(js, On(c));
      && RunList(next.0, next.1) != RunQueue(Rested(js, c))
      && (Begun(js, c) ==> RunsOrLoses(RunList(next.0, next.1), Rested(js, c)))
  {
    var next, k, ran := Next(js, On(c)), Hit(js, On(c)), Ran(js, On(c));
    var q, i := Rested(js, c), |js| - 1 - c + k;
    assert q[i] == js[k];
    assert forall i :: 0 <= i < |js| && i != k ==> ran[i].task == js[i].task != js[k].task;
    RestedDistinct(js, c);
    LostTask(next.0, next.1, q, i);
  }

  /** Unless it is the last job whose deletion hits the head, the unfinished job is lost. */
  lemma HarmfulHit(js: seq<Job>, c: nat)
    requires c < |js| && Left(js[c]) == 0 && Hit(js, On(c)) != c
    requires c != |js| - 1 || Hit(js, On(c)) != 0
    ensures !Harmless(js, c)
  {
    TurnsLeft(js[c]);
    var k, names, due := Hit(js, On(c)), NamesOf(js), Dues(js, c);
    assert names[k] == names[c] && due[k] > due[c] == 1;
    if c < |js| - 1 { assert due[c + 1] >= due[c]; }
    if k > 0 { assert names[0] != names[c] && due[0] > due[c]; }
    assert !Spared(names, due, k, c);
  }

  lemma HarmlessLast(js: seq<Job>)
    requires |js| > 1 && Left(js[|js| - 1]) == 0 && Hit(js, On(|js| - 1)) == 0
    ensures Harmless(js, |js| - 1) <==> ChainFine(js[0], js[1..|js| - 1])
  {
    var c := |js| - 1;
    var names, due, body := NamesOf(js), Dues(js, c), js[1..c];
    TurnsLeft(js[c]);
    assert names[0] == names[c] && due[c] == 1;
    assert forall i :: 0 <= i < |body| ==> Dues(body, 0)[i] == due[i + 1] - 1 && NamesOf(body)[i] == names[i + 1];
    if Harmless(js, c) {
      HarmlessLastOnly(js);
    }
    if ChainFine(js[0], body) {
      HarmlessLastIf(js);
    }
  }

  lemma HarmlessLastOnly(js: seq<Job>)
    requires |js| > 1 && Left(js[|js| - 1]) == 0 && Hit(js, On(|js| - 1)) == 0 && Harmless(js, |js| - 1)
    ensures ChainFine(js[0], js[1..|js| - 1])
  {
    var c := |js| - 1;
    var names, due, body := NamesOf(js), Dues(js, c), js[1..c];
    TurnsLeft(js[c]);
    assert due[c] == 1 && Spared(names, due, 0, c);
    var ns, ds := Without(Without(names, c), 0), Without(Without(due, c), 0);
    SparedWithout(names, due, c);
    SparedWithout(Without(names, c), Without(due, c), 0);
    assert NamesOf(body) == ns;
    SparedShifted(ns, ds, Dues(body, 0), 1);
    forall i | 0 <= i < |body| && body[i].task.name == js[0].task.name
      ensures Turns(body[i].left) == 1 && forall k :: 0 <= k < i ==> body[k].task.name == js[0].task.name
    {
      assert body[i] == js[i + 1] && names[i + 1] == names[c] && due[i + 1] > due[c];
      assert Spared(names, due, i + 1, c);
      forall k | 0 <= k < i
        ensures body[k].task.name == js[0].task.name
      {
        assert body[k] == js[k + 1] && due[k + 1] > due[c] && names[k + 1] == names[c];
      }
    }
  }

  lemma HarmlessLastIf(js: seq<Job>)
    requires |js| > 1 && Left(js[|js| - 1]) == 0 && Hit(js, On(|js| - 1)) == 0
    requires ChainFine(js[0], js[1..|js| - 1])
    ensures Harmless(js, |js| - 1)
  {
    var c := |js| - 1;
    var names, due, body := NamesOf(js), Dues(js, c), js[1..c];
    TurnsLeft(js[c]);
    assert due[0] == 2 && due[c] == 1 && names[0] == names[c];
    forall k | 0 < k < c
      ensures due[k] == Dues(body, 0)[k - 1] + 1 && names[k] == NamesOf(body)[k - 1]
      ensures due[k] >= 2
      ensures names[k] == names[c] ==> due[k] == 2 && forall l :: 0 < l < k ==> names[l] == names[c]
    {
      assert body[k - 1] == js[k];
      forall l | 0 < l < k && names[k] == names[c]
        ensures names[l] == names[c]
      {
        assert body[l - 1] == js[l];
      }
    }
    ChainSpared(names, due, NamesOf(body), Dues(body, 0));
  }

  lemma ChainSpared(names: seq<string>, due: seq<int>, ns: seq<string>, ds: seq<int>)
    requires |names| == |due| > 1 && |ns| == |ds| == |due| - 2 && AllSpared(ns, ds)
    requires var c := |due| - 1; due[0] == 2 && due[c] == 1 && names[0] == names[c]
    requires forall k :: 0 < k < |due| - 1 ==> due[k] == ds[k - 1] + 1 && names[k] == ns[k - 1] && due[k] >= 2
    requires forall k :: 0 < k < |due| - 1 && names[k] == names[0] ==>
      due[k] == 2 && forall l :: 0 < l < k ==> names[l] == names[0]
    ensures AllSpared(names, due)
  {
    var c := |due| - 1;
    forall i, j | 0 <= i < j < |due| && names[i] == names[j] && due[i] > due[j]
      ensures Spared(names, due, i, j)
    {
      if j < c {
        assert i > 0;
        assert Spared(ns, ds, i - 1, j - 1);
        forall k | 0 <= k < i && due[k] > due[j]
          ensures names[k] == names[j]
        {
          assert k > 0 && ds[k - 1] > ds[j - 1];
        }
        forall k | j < k < |due|
          ensures due[k] < due[j]
        {
          assert k < c ==> ds[k - 1] < ds[j - 1];
        }
      }
    }
  }

  lemma BegunStays(js: seq<Job>, c: nat)
    requires c < |js| && Begun(js, c)
    ensures Left(js[c]) != 0 ==> Begun(Ran(js, On(c)), After(c, |js|))
    ensures Begun(Without(js, c), AfterDeletion(c, |js|))
  {
    if Left(js[c]) != 0 { LeftIsPositive(js[c]); }
  }

  lemma DistinctStays(js: seq<Job>, c: nat)
    requires c < |js| && DistinctJobs(js)
    ensures DistinctJobs(Ran(js, On(c))) && DistinctJobs(Without(js, c))
  {
  }

  /** A turn without a wrong deletion keeps all that matters. */
  lemma RightTurn(js: seq<Job>, c: nat)
    requires c < |js| && DistinctJobs(js) && (Left(js[c]) == 0 ==> Hit(js, On(c)) == c)
    ensures var next := Next(js, On(c));
      && next.1.On? && DistinctJobs(next.0) && (Harmless(next.0, next.1.pos) <==> Harmless(js, c))
      && next.1.pos <= |next.0| && Rotated(next.0, next.1.pos) == Rotate(Rotated(js, c))
      && (Begun(js, c) ==> Begun(next.0, next.1.pos))
  {
    if Begun(js, c) { BegunStays(js, c); }
    DistinctStays(js, c);
    NextOn(js, c);
    NextRotates(js, c);
    if Left(js[c]) != 0 { HarmlessAfterTurn(js, c); } else { HarmlessAfterDeletion(js, c); }
  }

  /** From any position of the cursor. */
  lemma {:induction false} QueueRunIffFrom(js: seq<Job>, c: nat)
    requires Stands(js, On(c)) && DistinctJobs(js)
    ensures RunList(js, On(c)) == RunQueue(Rotated(js, c)) <==> Harmless(js, c)
    ensures Begun(js, c) ==> RunsOrLoses(RunList(js, On(c)), Rotated(js, c))
    decreases Measure(js, On(c)), 1
  {
    if js != [] {
      var next, q := Next(js, On(c)), Rotated(js, c);
      HeadsAgree(js, On(c), q);
      if Left(js[c]) != 0 || Hit(js, On(c)) == c {
        RightTurn(js, c);
        QueueRunIffFrom(next.0, next.1.pos);
      } else {
        WrongDeletion(js, c);
      }
    }
  }

  function TurnsAt(js: seq<Job>, i: nat): nat
    requires i < |js|
  {
    Turns(js[i].left)
  }

  ghost predicate SameName(js: seq<Job>, i: nat, j: nat) {
    i < |js| && j < |js| && js[i].task.name == js[j].task.name
  }

  /** Job `i` needs just one turn more than its namesake `j` further down the list, all jobs in front of
    * `i` that outlast `j` have that name too, and all behind `j` finish before it. */
  ghost predicate JustOutlasts(js: seq<Job>, i: nat, j: nat)
    requires i < j < |js|
  {
    && TurnsAt(js, i) == TurnsAt(js, j) + 1
    && (forall k :: 0 <= k < i && TurnsAt(js, k) > TurnsAt(js, j) ==> SameName(js, k, j))
    && (forall k :: j < k < |js| ==> TurnsAt(js, k) < TurnsAt(js, j))
  }

  /** Each job that needs more turns than a namesake further down the list just outlasts it. */
  ghost predicate NamesFit(js: seq<Job>) {
    forall i, j :: 0 <= i < j < |js| && SameName(js, i, j) && TurnsAt(js, i) > TurnsAt(js, j) ==> JustOutlasts(js, i, j)
  }

  lemma NamesFitIffHarmless(js: seq<Job>)
    ensures NamesFit(js) <==> Harmless(js, 0)
  {
    var names, due := NamesOf(js), Dues(js, 0);
    assert forall i :: 0 <= i < |js| ==> due[i] == TurnsAt(js, i) && names[i] == js[i].task.name;
    if Harmless(js, 0) {
      forall i, j | 0 <= i < j < |js| && SameName(js, i, j) && TurnsAt(js, i) > TurnsAt(js, j)
        ensures JustOutlasts(js, i, j)
      {
        assert Spared(names, due, i, j);
      }
    }
    if NamesFit(js) {
      forall i, j | 0 <= i < j < |js| && names[i] == names[j] && due[i] > due[j]
        ensures Spared(names, due, i, j)
      {
        assert SameName(js, i, j) && TurnsAt(js, i) > TurnsAt(js, j);
        assert JustOutlasts(js, i, j);
        assert forall k :: 0 <= k < i && TurnsAt(js, k) > TurnsAt(js, j) ==> SameName(js, k, j);
      }
    }
  }

  /** Whatever the names, the list with its cursor runs as a rotating queue, with every task having the
    * slices of its burst, if and only if the names fit. */
  lemma {:induction false} QueueRunIff(js: seq<Job>)
    requires DistinctJobs(js)
    ensures RunList(js, On(0)) == RunQueue(js) <==> NamesFit(js)
  {
    QueueRunIffFrom(js, 0);
    assert Rotated(js, 0) == js;
    NamesFitIffHarmless(js);
  }

  lemma QueueRunsBursts(js: seq<Job>, i: nat)
    requires DistinctJobs(js) && i < |js|
    ensures UnitsOf(RunQueue(js), js[i].task) == js[i].left
  {
    RunsItsBurst(js, js[i].task);
    OneJob(js, i);
  }

  /** In the run of the list every task runs for its whole burst. */
  ghost predicate FullBursts(js: seq<Job>) {
    forall i :: 0 <= i < |js| ==> UnitsOf(RunList(js, On(0)), js[i].task) == js[i].left
  }

  /** Every task runs for its whole burst exactly when the names fit. */
  lemma {:induction false} FullBurstsIff(js: seq<Job>)
    requires DistinctJobs(js)
    ensures FullBursts(js) <==> NamesFit(js)
  {
    QueueRunIff(js);
    QueueRunIffFrom(js, 0);
    assert Rotated(js, 0) == js;
    var a, b := RunList(js, On(0)), RunQueue(js);
    if NamesFit(js) {
      forall i | 0 <= i < |js|
        ensures UnitsOf(a, js[i].task) == js[i].left
      {
        QueueRunsBursts(js, i);
      }
    } else {
      assert Loses(a, b, js);
      var i :| 0 <= i < |js| && UnitsOf(a, js[i].task) < UnitsOf(b, js[i].task);
      QueueRunsBursts(js, i);
    }
  }

  /** The same in rounds. */
  lemma {:induction false} RoundsIff(js: seq<Job>)
    requires DistinctJobs(js)
    ensures RunList(js, On(0)) == Rounds(js) <==> NamesFit(js)
  {
    QueueRunIff(js);
    QueueRunsInRounds(js);
  }

  /** A loyal list is a special case: no job outlasts a namesake further down. */
  lemma {:induction false} LoyalIsHarmless(js: seq<Job>, c: nat)
    requires Stands(js, On(c)) && Loyal(js, On(c))
    ensures Harmless(js, c)
  {
    LoyalIffFrom(js, c);
  }

  /** Not all harmless lists are: here the wrong deletion takes out the node that is about to run. */
  lemma {:induction false} HarmlessNotLoyal(a: Task, b: Task)
    requires a != b && a.name == b.name
    ensures var js := [Job(a, 20), Job(b, 10)]; RunList(js, On(0)) == RunQueue(js) && !Loyal(js, On(0))
  {
    var js := [Job(a, 20), Job(b, 10)];
    assert TurnsAt(js, 0) == 2 && TurnsAt(js, 1) == 1;
    QueueRunIff(js);
    LoyalIff(js);
    assert Turns(js[0].left) > Turns(js[1].left) && js[0].task.name == js[1].task.name;
  }
}
