/** The thread pool as a state machine: any number of submitting threads and of workers around the
  * task queue. A task is an opaque number. */
module ThreadPool {
  import opened Options
  import opened RingQueue
  import opened Counting
  import opened Locking

  type Task = int

  /** Where a thread is. A submitter takes the lock, tests for a full queue, writes the slot, moves the
    * tail, unlocks and posts `taskCnt`, or unlocks and reports failure. A worker waits for `taskCnt`,
    * takes the lock, reads the slot, moves the head, unlocks and runs the task. */
  datatype Pc =
    | SIdle | SLock | STest | SWrite | SMove | SUnlock | SPost | SFull
    | WWait | WLock | WRead | WMove | WUnlock | WRun
    | Cancelled

  /** `tasks` are the local variables. `accepted` and `dequeued` record tasks as the tail and the head
    * move, `executed` as workers finish them. */
  datatype State = State(
    ring: Ring<Task>, taskCnt: nat, lock: Option<nat>, pcs: seq<Pc>, tasks: seq<Task>,
    accepted: seq<Task>, dequeued: seq<Task>, executed: seq<Task>)

  ghost predicate Init(s: State, size: nat) {
    && |s.ring.slots| == size + 1 && s.ring.head == s.ring.tail == 0
    && s.taskCnt == 0 && s.lock == None && |s.tasks| == |s.pcs|
    && (forall i :: 0 <= i < |s.pcs| ==> s.pcs[i] in {SIdle, WWait})
    && s.accepted == s.dequeued == s.executed == []
  }

  /** A thread makes its next step (`task` is what a submitter submits), or a waiting worker is cancelled. */
  datatype Event = Step(thread: nat, task: Task) | Cancel(thread: nat)

  ghost predicate Enabled(s: State, e: Event) {
    && e.thread < |s.pcs| == |s.tasks| && s.ring.head < |s.ring.slots| && s.ring.tail < |s.ring.slots|
    && var pc := s.pcs[e.thread];
       match e
       case Cancel(_) => pc == WWait
       case Step(_, _) =>
         && pc != Cancelled
         && (pc == WWait ==> 0 < s.taskCnt)
         && (pc in {SLock, WLock} ==> s.lock == None)
  }

  ghost function At(s: State, i: nat, pc: Pc): State
    requires i < |s.pcs|
  {
    s.(pcs := s.pcs[i := pc])
  }

  ghost function Next(s: State, e: Event): State
    requires Enabled(s, e)
  {
    var i := e.thread;
    var r, n := s.ring, |s.ring.slots|;
    if e.Cancel? then At(s, i, Cancelled)
    else match s.pcs[i]
      case SIdle => At(s, i, SLock).(tasks := s.tasks[i := e.task])
      case SLock => At(s, i, STest).(lock := Some(i))
      case STest => At(s, i, if (r.tail + 1) % n == r.head then SFull else SWrite)
      case SWrite => At(s, i, SMove).(ring := r.(slots := r.slots[r.tail := s.tasks[i]]))
      case SMove => At(s, i, SUnlock).(ring := r.(tail := (r.tail + 1) % n), accepted := s.accepted + [s.tasks[i]])
      case SUnlock => At(s, i, SPost).(lock := None)
      case SPost => At(s, i, SIdle).(taskCnt := s.taskCnt + 1)
      case SFull => At(s, i, SIdle).(lock := None)
      case WWait => At(s, i, WLock).(taskCnt := s.taskCnt - 1)
      case WLock => At(s, i, WRead).(lock := Some(i))
      case WRead => At(s, i, WMove).(tasks := s.tasks[i := r.slots[r.head]])
      case WMove => At(s, i, WUnlock).(ring := r.(head := (r.head + 1) % n), dequeued := s.dequeued + [s.tasks[i]])
      case WUnlock => At(s, i, WRun).(lock := None)
      case WRun => At(s, i, WWait).(executed := s.executed + [s.tasks[i]])
      case Cancelled => s
  }

  // ----- the invariant -----

  const CRITICAL := {STest, SWrite, SMove, SUnlock, SFull, WRead, WMove, WUnlock}
  const UNPOSTED := {SUnlock, SPost}          // enqueued, token not yet posted
  const TAKING := {WLock, WRead, WMove}       // took a token, task not yet dequeued
  const IN_HAND := {WUnlock, WRun}             // dequeued, not yet executed

  /** The length of the queue is `taskCnt` plus the threads between the queue and the semaphore. */
  ghost predicate Tokens(s: State) {
    |s.accepted| - |s.dequeued| == s.taskCnt + Count(s.pcs, TAKING) + Count(s.pcs, UNPOSTED)
  }

  ghost predicate LocalAt(s: State, i: nat) {
    && i < |s.tasks| == |s.pcs| && s.ring.tail < |s.ring.slots| && s.ring.head < |s.ring.slots|
    && (s.pcs[i] == SMove ==> s.ring.slots[s.ring.tail] == s.tasks[i])
    && (s.pcs[i] == WMove ==> s.ring.slots[s.ring.head] == s.tasks[i])
    && (s.pcs[i] in {SWrite, SMove} ==> |s.accepted| - |s.dequeued| < |s.ring.slots| - 1)
  }

  ghost predicate Inv(s: State, size: nat) {
    && 0 < size && |s.tasks| == |s.pcs| && |s.ring.slots| == size + 1
    && RingInv(s.ring, s.accepted, s.dequeued)
    && Exclusive(s.lock, s.pcs, CRITICAL) && Tokens(s)
    && (forall t :: Times(s.dequeued, t) == Times(s.executed, t) + Held(s.pcs, s.tasks, IN_HAND, t, |s.pcs|))
    && (forall i :: 0 <= i < |s.pcs| ==> LocalAt(s, i))
  }

  lemma InitInv(s: State, size: nat)
    requires Init(s, size) && 0 < size
    ensures Inv(s, size)
  {
    CountNone(s.pcs, TAKING);
    CountNone(s.pcs, UNPOSTED);
    forall t: Task
      ensures Held(s.pcs, s.tasks, IN_HAND, t, |s.pcs|) == 0
    {
      HeldNothing(s.pcs, s.tasks, IN_HAND, t, |s.pcs|);
    }
  }

  /** The three steps that touch the ring. A worker past sem_wait always finds a task. */
  lemma MovesKeepRing(s: State, e: Event, size: nat)
    requires Inv(s, size) && Enabled(s, e) && e.Step? && s.pcs[e.thread] in {SWrite, SMove, WMove}
    ensures var s' := Next(s, e); RingInv(s'.ring, s'.accepted, s'.dequeued)
  {
    var i := e.thread;
    assert LocalAt(s, i);
    match s.pcs[i]
    case SWrite => Write(s.ring, s.accepted, s.dequeued, s.tasks[i]);
    case SMove => Put(s.ring, s.accepted, s.dequeued);
    case WMove =>
      CountAtLeast(s.pcs, i, TAKING);
      Take(s.ring, s.accepted, s.dequeued);
  }

  lemma NextKeepsRing(s: State, e: Event, size: nat)
    requires Inv(s, size) && Enabled(s, e)
    ensures var s' := Next(s, e); RingInv(s'.ring, s'.accepted, s'.dequeued) && |s'.ring.slots| == size + 1
  {
    if e.Step? && s.pcs[e.thread] in {SWrite, SMove, WMove} {
      MovesKeepRing(s, e, size);
    } else {
      var s' := Next(s, e);
      assert s'.ring == s.ring && s'.accepted == s.accepted && s'.dequeued == s.dequeued;
    }
  }

  /** A step leaves the place and the variables of every other thread alone. */
  lemma OthersStay(s: State, e: Event, j: nat)
    requires Enabled(s, e) && j < |s.pcs| && j != e.thread
    ensures var s' := Next(s, e); |s'.tasks| == |s'.pcs| == |s.pcs| && s'.pcs[j] == s.pcs[j] && s'.tasks[j] == s.tasks[j]
  {
  }

  lemma LockPasses(s: State, e: Event)
    requires Enabled(s, e)
    ensures var s', i := Next(s, e), e.thread;
      s'.pcs == s.pcs[i := s'.pcs[i]] && Passes(s.lock, i, s.pcs[i], s'.pcs[i], s'.lock, CRITICAL)
  {
  }

  lemma NextKeepsExclusive(s: State, e: Event)
    requires Exclusive(s.lock, s.pcs, CRITICAL) && Enabled(s, e)
    ensures Exclusive(Next(s, e).lock, Next(s, e).pcs, CRITICAL)
  {
    LockPasses(s, e);
    PassKeepsExclusive(s.lock, s.pcs, e.thread, Next(s, e).pcs[e.thread], Next(s, e).lock, CRITICAL);
  }

  lemma TokensMove(s: State, e: Event)
    requires Enabled(s, e)
    ensures var s', i := Next(s, e), e.thread;
      && s'.pcs == s.pcs[i := s'.pcs[i]]
      && |s'.accepted| - |s'.dequeued| - s'.taskCnt - In(s'.pcs[i], TAKING) - In(s'.pcs[i], UNPOSTED)
         == |s.accepted| - |s.dequeued| - s.taskCnt - In(s.pcs[i], TAKING) - In(s.pcs[i], UNPOSTED)
  {
  }

  lemma NextKeepsTokens(s: State, e: Event, size: nat)
    requires Inv(s, size) && Enabled(s, e)
    ensures Tokens(Next(s, e))
  {
    var i, pc := e.thread, Next(s, e).pcs[e.thread];
    CountUpdate(s.pcs, i, pc, TAKING);
    CountUpdate(s.pcs, i, pc, UNPOSTED);
    TokensMove(s, e);
  }

  /** Only two steps concern the hands of a worker: it dequeues a task, or it has executed it. */
  lemma HandsMove(s: State, e: Event)
    requires Enabled(s, e)
    ensures var s', i := Next(s, e), e.thread;
      && s'.pcs == s.pcs[i := s'.pcs[i]] && s'.tasks == s.tasks[i := s'.tasks[i]]
      && (if e.Step? && s.pcs[i] == WMove then
            s'.dequeued == s.dequeued + [s.tasks[i]] && s'.executed == s.executed
          else if e.Step? && s.pcs[i] == WRun then
            s'.dequeued == s.dequeued && s'.executed == s.executed + [s.tasks[i]]
          else s'.dequeued == s.dequeued && s'.executed == s.executed)
  {
  }

  lemma HandChange(s: State, e: Event, t: Task)
    requires Enabled(s, e)
    ensures var s', i := Next(s, e), e.thread;
      Times(s'.dequeued, t) + Times(s.executed, t) + Hand(s.pcs[i], s.tasks[i], IN_HAND, t) ==
      Times(s.dequeued, t) + Times(s'.executed, t) + Hand(s'.pcs[i], s'.tasks[i], IN_HAND, t)
  {
    HandsMove(s, e);
    TimesSnoc(s.dequeued, s.tasks[e.thread], t);
    TimesSnoc(s.executed, s.tasks[e.thread], t);
  }

  /** A dequeued task is in the hands of one worker until it has been executed. */
  lemma NextKeepsHands(s: State, e: Event, size: nat)
    requires Inv(s, size) && Enabled(s, e)
    ensures |Next(s, e).pcs| == |Next(s, e).tasks|
    ensures var s' := Next(s, e);
      forall t :: Times(s'.dequeued, t) == Times(s'.executed, t) + Held(s'.pcs, s'.tasks, IN_HAND, t, |s'.pcs|)
  {
    var s', i := Next(s, e), e.thread;
    HandsMove(s, e);
    forall t: Task
      ensures Times(s'.dequeued, t) == Times(s'.executed, t) + Held(s'.pcs, s'.tasks, IN_HAND, t, |s'.pcs|)
    {
      HandChange(s, e, t);
      HeldUpdate(s.pcs, s.tasks, IN_HAND, i, s'.pcs[i], s'.tasks[i], t, |s.pcs|);
      assert Times(s.dequeued, t) == Times(s.executed, t) + Held(s.pcs, s.tasks, IN_HAND, t, |s.pcs|);
    }
  }

  /** While a thread is in its critical section no other thread changes the queue. */
  lemma Undisturbed(s: State, e: Event, j: nat)
    requires Exclusive(s.lock, s.pcs, CRITICAL) && |s.tasks| == |s.pcs| && Enabled(s, e)
    requires j < |s.pcs| && j != e.thread && s.pcs[j] in CRITICAL
    ensures var s' := Next(s, e);
      s'.ring == s.ring && s'.tasks[j] == s.tasks[j] && s'.accepted == s.accepted && s'.dequeued == s.dequeued
  {
    assert s.lock == Some(j);
    assert s.pcs[e.thread] !in CRITICAL;
  }

  /** A submitter that has written the slot, and a worker that has read it, have their task in it. */
  lemma OwnSlot(s: State, e: Event)
    requires Enabled(s, e) && LocalAt(s, e.thread)
    ensures var s', i := Next(s, e), e.thread;
      && (s'.pcs[i] == SMove ==> s'.ring.slots[s'.ring.tail] == s'.tasks[i])
      && (s'.pcs[i] == WMove ==> s'.ring.slots[s'.ring.head] == s'.tasks[i])
  {
  }

  /** A submitter that has passed the test finds room. */
  lemma OwnRoom(s: State, e: Event, size: nat)
    requires Inv(s, size) && Enabled(s, e) && LocalAt(s, e.thread)
    ensures var s' := Next(s, e);
      s'.pcs[e.thread] in {SWrite, SMove} ==> |s'.accepted| - |s'.dequeued| < |s'.ring.slots| - 1
  {
    FullTest(s.ring, s.accepted, s.dequeued);
  }

  lemma OwnLocal(s: State, e: Event, size: nat)
    requires Inv(s, size) && Enabled(s, e)
    ensures LocalAt(Next(s, e), e.thread)
  {
    assert LocalAt(s, e.thread);
    NextKeepsRing(s, e, size);
    HandsMove(s, e);
    OwnSlot(s, e);
    OwnRoom(s, e, size);
  }

  lemma OtherLocal(s: State, e: Event, size: nat, j: nat)
    requires Inv(s, size) && Enabled(s, e) && j < |s.pcs| && j != e.thread
    ensures LocalAt(Next(s, e), j)
  {
    assert LocalAt(s, j);
    NextKeepsRing(s, e, size);
    OthersStay(s, e, j);
    if s.pcs[j] in {SWrite, SMove, WMove} { Undisturbed(s, e, j); }
  }

  lemma NextKeepsLocals(s: State, e: Event, size: nat)
    requires Inv(s, size) && Enabled(s, e)
    ensures forall j :: 0 <= j < |Next(s, e).pcs| ==> LocalAt(Next(s, e), j)
  {
    forall j | 0 <= j < |Next(s, e).pcs|
      ensures LocalAt(Next(s, e), j)
    {
      if j == e.thread { OwnLocal(s, e, size); } else { OtherLocal(s, e, size, j); }
    }
  }

  lemma NextKeepsInv(s: State, e: Event, size: nat)
    requires Inv(s, size) && Enabled(s, e)
    ensures Inv(Next(s, e), size)
  {
    NextKeepsRing(s, e, size);
    NextKeepsExclusive(s, e);
    NextKeepsTokens(s, e, size);
    NextKeepsHands(s, e, size);
    NextKeepsLocals(s, e, size);
  }

  // ----- whole runs -----

  ghost predicate Follows(s: State, e: Event, s': State) {
    Enabled(s, e) && s' == Next(s, e)
  }

  ghost predicate Run(states: seq<State>, events: seq<Event>, size: nat) {
    && |states| == |events| + 1 && Init(states[0], size)
    && forall i, j :: 0 <= i && j == i + 1 < |states| ==> Follows(states[i], events[i], states[j])
  }

  lemma {:induction false} RunKeepsInv(states: seq<State>, events: seq<Event>, size: nat, i: nat)
    requires Run(states, events, size) && 0 < size && i < |states|
    ensures Inv(states[i], size)
  {
    if i == 0 {
      InitInv(states[0], size);
    } else {
      RunKeepsInv(states, events, size, i - 1);
      assert Follows(states[i - 1], events[i - 1], states[i]);
      NextKeepsInv(states[i - 1], events[i - 1], size);
    }
  }

  /** In every reachable state tasks are dequeued in the order in which they were accepted, and every
    * accepted task is in exactly one place: executed, in the hands of one worker, or in the queue. */
  lemma AcceptedTasksAccountedFor(s: State, size: nat)
    requires Inv(s, size)
    ensures s.dequeued <= s.accepted
    ensures var queue := s.accepted[|s.dequeued|..];
      forall t :: Times(s.accepted, t) == Times(s.executed, t) + Held(s.pcs, s.tasks, IN_HAND, t, |s.pcs|) + Times(queue, t)
  {
    var queue := s.accepted[|s.dequeued|..];
    assert s.accepted == s.dequeued + queue;
    assert multiset(s.accepted) == multiset(s.dequeued) + multiset(queue);
    assert forall t :: Times(s.accepted, t) == Times(s.dequeued, t) + Times(queue, t);
  }

  /** The unchecked dequeue never reads an empty slot, and a submission is refused only when the queue
    * holds `size` tasks. */
  lemma QueueNeverMisused(s: State, size: nat, i: nat)
    requires Inv(s, size) && i < |s.pcs|
    ensures s.pcs[i] == WRead ==> |s.dequeued| < |s.accepted| && s.ring.slots[s.ring.head] == s.accepted[|s.dequeued|]
    ensures s.pcs[i] == SWrite ==> forall k :: InRing(s.accepted, s.dequeued, k) ==> k % |s.ring.slots| != s.ring.tail
    ensures s.pcs[i] == STest ==>
      (Next(s, Step(i, 0)).pcs[i] == SFull <==> |s.accepted| - |s.dequeued| == size)
  {
    if s.pcs[i] == WRead {
      CountAtLeast(s.pcs, i, TAKING);
      Take(s.ring, s.accepted, s.dequeued);
    }
    if s.pcs[i] == SWrite {
      forall k | InRing(s.accepted, s.dequeued, k)
        ensures k % |s.ring.slots| != s.ring.tail
      {
        TailIsFree(s.ring, s.accepted, s.dequeued, k);
      }
    }
    FullTest(s.ring, s.accepted, s.dequeued);
  }

  /** As long as an accepted task has not been executed and a worker is alive, some thread other than
    * one that is about to submit can make a step. */
  lemma WorkGetsDone(s: State, size: nat, w: nat)
    requires Inv(s, size) && w < |s.pcs| && s.pcs[w] in {WWait, WLock, WRead, WMove, WUnlock, WRun}
    requires multiset(s.executed) != multiset(s.accepted)
    ensures exists i :: 0 <= i < |s.pcs| && s.pcs[i] != SIdle && Enabled(s, Step(i, 0))
  {
    if s.lock.Some? {
      assert Enabled(s, Step(s.lock.value, 0));
    } else if i :| 0 <= i < |s.pcs| && s.pcs[i] !in {SIdle, WWait, Cancelled} {
      assert Enabled(s, Step(i, 0));
    } else {
      CountNone(s.pcs, TAKING);
      CountNone(s.pcs, UNPOSTED);
      if s.taskCnt == 0 { AllExecuted(s, size); }
      assert Enabled(s, Step(w, 0));
    }
  }

  lemma AllExecuted(s: State, size: nat)
    requires Inv(s, size) && |s.accepted| == |s.dequeued|
    requires forall i :: 0 <= i < |s.pcs| ==> s.pcs[i] !in IN_HAND
    ensures multiset(s.executed) == multiset(s.accepted)
  {
    assert s.dequeued == s.accepted;
    forall t: Task
      ensures multiset(s.executed)[t] == multiset(s.accepted)[t]
    {
      HeldNothing(s.pcs, s.tasks, IN_HAND, t, |s.pcs|);
      assert Times(s.dequeued, t) == Times(s.executed, t);
    }
  }
}
