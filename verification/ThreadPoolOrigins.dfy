/** Where the tasks of the pool come from: the calls that submitted them. */
module ThreadPoolOrigins {
  import opened Options
  import opened Counting
  import opened ThreadPool

  /** Between the call of pool_submit and its return. */
  const SUBMITTING := {SLock, STest, SWrite, SMove, SUnlock, SPost, SFull}

  /** A submitter whose task is neither in the queue nor refused. */
  const UNDECIDED := {SLock, STest, SWrite, SMove, SFull}

  /** An idle submitter calls pool_submit. */
  ghost predicate Submission(s: State, e: Event) {
    e.Step? && e.thread < |s.pcs| && s.pcs[e.thread] == SIdle
  }

  /** A call of pool_submit ends without success. */
  ghost predicate Refusal(s: State, e: Event) {
    e.Step? && e.thread < |s.pcs| == |s.tasks| && s.pcs[e.thread] == SFull
  }

  /** Event `k` is a submission by thread `i`. */
  ghost predicate Submits(states: seq<State>, events: seq<Event>, i: nat, k: nat) {
    k < |events| && k < |states| && events[k].thread == i && Submission(states[k], events[k])
  }

  /** Event `k` is the latest submission of thread `i` among the first `n` events. */
  ghost predicate Latest(states: seq<State>, events: seq<Event>, i: nat, n: nat, k: nat) {
    k < n && Submits(states, events, i, k) && forall j :: k < j < n ==> !Submits(states, events, i, j)
  }

  ghost predicate HoldsLatest(states: seq<State>, events: seq<Event>, i: nat, n: nat) {
    && n < |states| && i < |states[n].tasks|
    && exists k: nat :: k < |events| && Latest(states, events, i, n, k) && states[n].tasks[i] == events[k].task
  }

  lemma OneStep(states: seq<State>, events: seq<Event>, size: nat, n: nat)
    requires Run(states, events, size) && n < |events|
    ensures Follows(states[n], events[n], states[n + 1])
  {
    assert n + 1 < |states|;
  }

  /** A step that is no submission leaves a submitter its task. */
  lemma KeepsTask(s: State, e: Event, i: nat)
    requires Enabled(s, e) && i < |s.pcs|
    ensures var s' := Next(s, e);
      && |s'.pcs| == |s'.tasks| == |s.pcs|
      && (s'.pcs[i] in SUBMITTING ==>
            if e.Step? && e.thread == i && s.pcs[i] == SIdle then s'.tasks[i] == e.task
            else s.pcs[i] in SUBMITTING && s'.tasks[i] == s.tasks[i])
  {
    if i != e.thread { OthersStay(s, e, i); }
  }

  lemma LatestLater(states: seq<State>, events: seq<Event>, i: nat, n: nat, k: nat)
    requires Latest(states, events, i, n, k) && !Submits(states, events, i, n)
    ensures Latest(states, events, i, n + 1, k)
  {
  }

  lemma HoldsLater(states: seq<State>, events: seq<Event>, i: nat, n: nat)
    requires n < |events| && n + 1 < |states| && Follows(states[n], events[n], states[n + 1]) && i < |states[n].pcs|
    requires states[n + 1].pcs[i] in SUBMITTING
    requires Submits(states, events, i, n) || HoldsLatest(states, events, i, n)
    ensures HoldsLatest(states, events, i, n + 1)
  {
    KeepsTask(states[n], events[n], i);
    if Submits(states, events, i, n) {
      assert Latest(states, events, i, n + 1, n);
    } else {
      var k: nat :| k < |events| && Latest(states, events, i, n, k) && states[n].tasks[i] == events[k].task;
      LatestLater(states, events, i, n, k);
    }
  }

  lemma SubmittingBefore(states: seq<State>, events: seq<Event>, size: nat, i: nat, n: nat)
    requires Run(states, events, size) && n < |events| && i < |states[n + 1].pcs| && states[n + 1].pcs[i] in SUBMITTING
    ensures i < |states[n].pcs| && Follows(states[n], events[n], states[n + 1])
    ensures Submits(states, events, i, n) || states[n].pcs[i] in SUBMITTING
  {
    OneStep(states, events, size, n);
    KeepsTask(states[n], events[n], i);
  }

  /** A submitter has the task of its own latest call of pool_submit. */
  lemma {:induction false} SubmitterHoldsItsTask(states: seq<State>, events: seq<Event>, size: nat, i: nat, n: nat)
    requires Run(states, events, size) && n < |states| && i < |states[n].pcs| && states[n].pcs[i] in SUBMITTING
    ensures HoldsLatest(states, events, i, n)
  {
    if n > 0 {
      SubmittingBefore(states, events, size, i, n - 1);
      if !Submits(states, events, i, n - 1) { SubmitterHoldsItsTask(states, events, size, i, n - 1); }
      HoldsLater(states, events, i, n - 1);
    }
  }

  /** The queue grows only by a step of a submitter that has found room, and then by the task of that
    * submitter's latest call. */
  lemma {:induction false} AcceptsTheSubmittedTask(states: seq<State>, events: seq<Event>, size: nat, n: nat)
    requires Run(states, events, size) && n < |events|
    ensures var i := events[n].thread;
      if i < |states[n].pcs| && events[n].Step? && states[n].pcs[i] == SMove then
        exists k: nat :: k < |events| && Latest(states, events, i, n, k)
          && states[n + 1].accepted == states[n].accepted + [events[k].task]
      else states[n + 1].accepted == states[n].accepted
  {
    OneStep(states, events, size, n);
    var i := events[n].thread;
    if events[n].Step? && states[n].pcs[i] == SMove {
      SubmitterHoldsItsTask(states, events, size, i, n);
    }
  }

  // ----- every submission ends in one way -----

  /** The tasks submitted with the first `n` events. */
  ghost function Submitted(states: seq<State>, events: seq<Event>, n: nat): seq<Task>
    requires n <= |events| < |states|
  {
    if n == 0 then []
    else
      var before := Submitted(states, events, n - 1);
      if Submission(states[n - 1], events[n - 1]) then before + [events[n - 1].task] else before
  }

  /** The tasks refused with the first `n` events. */
  ghost function Refused(states: seq<State>, events: seq<Event>, n: nat): seq<Task>
    requires n <= |events| < |states|
  {
    if n == 0 then []
    else
      var before := Refused(states, events, n - 1);
      if Refusal(states[n - 1], events[n - 1]) then before + [states[n - 1].tasks[events[n - 1].thread]] else before
  }

  ghost function Undecided(s: State, t: Task): nat
    requires |s.pcs| == |s.tasks|
  {
    Held(s.pcs, s.tasks, UNDECIDED, t, |s.pcs|)
  }

  /** Only the steps at four places concern the task of a submitter. */
  lemma UndecidedMove(s: State, e: Event)
    requires Enabled(s, e)
    ensures var s', pc, pc' := Next(s, e), s.pcs[e.thread], Next(s, e).pcs[e.thread];
      && (s'.accepted == if e.Step? && pc == SMove then s.accepted + [s.tasks[e.thread]] else s.accepted)
      && (Submission(s, e) ==> pc !in UNDECIDED && pc' in UNDECIDED && s'.tasks[e.thread] == e.task)
      && (Refusal(s, e) || (e.Step? && pc == SMove) ==> pc in UNDECIDED && pc' !in UNDECIDED)
  {
  }

  lemma UndecidedKept(s: State, e: Event)
    requires Enabled(s, e) && !Submission(s, e) && !Refusal(s, e) && !(e.Step? && s.pcs[e.thread] == SMove)
    ensures var s', i := Next(s, e), e.thread;
      (s.pcs[i] in UNDECIDED <==> s'.pcs[i] in UNDECIDED) && (s.pcs[i] in UNDECIDED ==> s'.tasks[i] == s.tasks[i])
  {
  }

  lemma UndecidedChange(s: State, e: Event, t: Task)
    requires Enabled(s, e)
    ensures var s', i := Next(s, e), e.thread;
      Hand(s'.pcs[i], s'.tasks[i], UNDECIDED, t) + Times(s'.accepted, t)
        + (if Refusal(s, e) && s.tasks[i] == t then 1 else 0)
      == Hand(s.pcs[i], s.tasks[i], UNDECIDED, t) + Times(s.accepted, t)
        + (if Submission(s, e) && e.task == t then 1 else 0)
  {
    HandsMove(s, e);
    UndecidedMove(s, e);
    TimesSnoc(s.accepted, s.tasks[e.thread], t);
    if !Submission(s, e) && !Refusal(s, e) && !(e.Step? && s.pcs[e.thread] == SMove) { UndecidedKept(s, e); }
  }

  lemma StepAccounts(s: State, e: Event, s': State, t: Task)
    requires Follows(s, e, s')
    ensures |s'.pcs| == |s'.tasks|
    ensures Undecided(s', t) + Times(s'.accepted, t) + (if Refusal(s, e) && s.tasks[e.thread] == t then 1 else 0)
      == Undecided(s, t) + Times(s.accepted, t) + (if Submission(s, e) && e.task == t then 1 else 0)
  {
    var i := e.thread;
    HandsMove(s, e);
    UndecidedChange(s, e, t);
    HeldUpdate(s.pcs, s.tasks, UNDECIDED, i, s'.pcs[i], s'.tasks[i], t, |s.pcs|);
  }

  lemma LogsGrow(states: seq<State>, events: seq<Event>, n: nat, t: Task)
    requires n < |events| < |states|
    ensures Times(Submitted(states, events, n + 1), t) == Times(Submitted(states, events, n), t)
      + if Submission(states[n], events[n]) && events[n].task == t then 1 else 0
    ensures Times(Refused(states, events, n + 1), t) == Times(Refused(states, events, n), t)
      + if Refusal(states[n], events[n]) && states[n].tasks[events[n].thread] == t then 1 else 0
  {
    if Submission(states[n], events[n]) { TimesSnoc(Submitted(states, events, n), events[n].task, t); }
    if Refusal(states[n], events[n]) {
      TimesSnoc(Refused(states, events, n), states[n].tasks[events[n].thread], t);
    }
  }

  lemma NothingUndecided(s: State, size: nat, t: Task)
    requires Init(s, size)
    ensures |s.pcs| == |s.tasks| && Undecided(s, t) == 0 && Times(s.accepted, t) == 0
  {
    HeldNothing(s.pcs, s.tasks, UNDECIDED, t, |s.pcs|);
  }

  /** Each submitted task is accepted, refused, or still with its submitter, as often in all as it was
    * submitted. */
  lemma {:induction false} SubmissionsAccountedFor(states: seq<State>, events: seq<Event>, size: nat, n: nat, t: Task)
    requires Run(states, events, size) && n <= |events|
    ensures |states[n].pcs| == |states[n].tasks|
    ensures Times(Submitted(states, events, n), t) ==
      Times(states[n].accepted, t) + Times(Refused(states, events, n), t) + Undecided(states[n], t)
  {
    if n == 0 {
      NothingUndecided(states[0], size, t);
    } else {
      SubmissionsAccountedFor(states, events, size, n - 1, t);
      OneStep(states, events, size, n - 1);
      StepAccounts(states[n - 1], events[n - 1], states[n], t);
      LogsGrow(states, events, n - 1, t);
    }
  }

  lemma ExecutedTimes(s: State, size: nat, t: Task)
    requires Inv(s, size)
    ensures Times(s.executed, t) <= Times(s.accepted, t)
  {
    var held, queue := Held(s.pcs, s.tasks, IN_HAND, t, |s.pcs|), s.accepted[|s.dequeued|..];
    AcceptedTasksAccountedFor(s, size);
    assert Times(s.accepted, t) == Times(s.executed, t) + held + Times(queue, t);
  }

  /** Only submitted tasks are accepted and executed, none more often than it was submitted. */
  lemma {:induction false} OnlySubmittedTasksRun(states: seq<State>, events: seq<Event>, size: nat, n: nat)
    requires Run(states, events, size) && 0 < size && n <= |events|
    ensures multiset(states[n].executed) <= multiset(states[n].accepted) <= multiset(Submitted(states, events, n))
  {
    RunKeepsInv(states, events, size, n);
    forall t: Task
      ensures multiset(states[n].executed)[t] <= multiset(states[n].accepted)[t]
      ensures multiset(states[n].accepted)[t] <= multiset(Submitted(states, events, n))[t]
    {
      ExecutedTimes(states[n], size, t);
      SubmissionsAccountedFor(states, events, size, n, t);
      assert Times(states[n].executed, t) <= Times(states[n].accepted, t) <= Times(Submitted(states, events, n), t);
    }
  }
}
