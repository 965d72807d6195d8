/** The producer-consumer program as a state machine: any number of threads, each with a program
  * counter; every operation on a semaphore, the lock, a slot or an index is one step. */
module BoundedBuffer {
  import opened Options
  import opened RingQueue
  import opened Counting
  import opened Locking

  /** Where a thread is. A producer sleeps, waits for `empty`, takes the lock, writes the slot, moves
    * the tail, unlocks and posts `full`; a consumer does the mirror image. */
  datatype Pc =
    | PSleep | PWait | PLock | PWrite | PMove | PUnlock | PPost
    | CSleep | CWait | CLock | CRead | CMove | CUnlock | CPost
    | Cancelled

  /** `items` are the local variables of the threads. `inserted` and `removed` record the values in the
    * order in which the tail and the head move. */
  datatype State = State(
    ring: Ring<int>, empty: nat, full: nat, lock: Option<nat>, pcs: seq<Pc>, items: seq<int>,
    inserted: seq<int>, removed: seq<int>)

  /** init_buffer, with all threads about to sleep. */
  ghost predicate Init(s: State, size: nat) {
    && |s.ring.slots| == size + 1 && s.ring.head == s.ring.tail == 0
    && s.empty == size && s.full == 0 && s.lock == None && |s.items| == |s.pcs|
    && (forall i :: 0 <= i < |s.pcs| ==> s.pcs[i] in {PSleep, CSleep})
    && s.inserted == [] && s.removed == []
  }

  /** What may happen next: thread `thread` makes its next step, or is cancelled. `value` is the
    * random number a producer draws. */
  datatype Event = Step(thread: nat, value: int) | Cancel(thread: nat)

  ghost predicate Enabled(s: State, e: Event) {
    && e.thread < |s.pcs| == |s.items| && s.ring.head < |s.ring.slots| && s.ring.tail < |s.ring.slots|
    && var pc := s.pcs[e.thread];
       match e
       case Cancel(_) => pc in {PSleep, PWait, CSleep, CWait}
       case Step(_, _) =>
         && pc != Cancelled
         && (pc == PWait ==> 0 < s.empty)
         && (pc == CWait ==> 0 < s.full)
         && (pc in {PLock, CLock} ==> s.lock == None)
  }

  ghost function At(s: State, i: nat, pc: Pc): State
    requires i < |s.pcs|
  {
    s.(pcs := s.pcs[i := pc])
  }

  ghost function Next(s: State, e: Event): State
    requires Enabled(s, e)
  {
    var i := e.thread;
    var r, n := s.ring, |s.ring.slots|;
    if e.Cancel? then At(s, i, Cancelled)
    else match s.pcs[i]
      case PSleep => At(s, i, PWait).(items := s.items[i := e.value])
      case PWait => At(s, i, PLock).(empty := s.empty - 1)
      case PLock => At(s, i, PWrite).(lock := Some(i))
      case PWrite => At(s, i, PMove).(ring := r.(slots := r.slots[r.tail := s.items[i]]))
      case PMove => At(s, i, PUnlock).(ring := r.(tail := (r.tail + 1) % n), inserted := s.inserted + [s.items[i]])
      case PUnlock => At(s, i, PPost).(lock := None)
      case PPost => At(s, i, PSleep).(full := s.full + 1)
      case CSleep => At(s, i, CWait)
      case CWait => At(s, i, CLock).(full := s.full - 1)
      case CLock => At(s, i, CRead).(lock := Some(i))
      case CRead => At(s, i, CMove).(items := s.items[i := r.slots[r.head]])
      case CMove => At(s, i, CUnlock).(ring := r.(head := (r.head + 1) % n), removed := s.removed + [s.items[i]])
      case CUnlock => At(s, i, CPost).(lock := None)
      case CPost => At(s, i, CSleep).(empty := s.empty + 1)
      case Cancelled => s
  }

  // ----- the invariant -----

  const CRITICAL := {PWrite, PMove, PUnlock, CRead, CMove, CUnlock}
  const CLAIMED := {PLock, PWrite, PMove}      // took a token of `empty`, tail not yet moved
  const UNPOSTED := {PUnlock, PPost}           // tail moved, token of `full` not yet posted
  const TAKING := {CLock, CRead, CMove}        // took a token of `full`, head not yet moved
  const UNRETURNED := {CUnlock, CPost}         // head moved, token of `empty` not yet posted

  /** Every token is in a semaphore or in the hands of a thread. */
  ghost predicate Tokens(s: State, size: nat) {
    && |s.inserted| - |s.removed| == s.full + Count(s.pcs, TAKING) + Count(s.pcs, UNPOSTED)
    && size - (|s.inserted| - |s.removed|) == s.empty + Count(s.pcs, CLAIMED) + Count(s.pcs, UNRETURNED)
  }

  /** A producer about to move the tail has its value in the slot there; a consumer has read the slot at the head. */
  ghost predicate LocalAt(s: State, i: nat) {
    && i < |s.items| == |s.pcs| && s.ring.tail < |s.ring.slots| && s.ring.head < |s.ring.slots|
    && (s.pcs[i] == PMove ==> s.ring.slots[s.ring.tail] == s.items[i])
    && (s.pcs[i] == CMove ==> s.ring.slots[s.ring.head] == s.items[i])
  }

  ghost predicate Inv(s: State, size: nat) {
    && 0 < size && |s.items| == |s.pcs| && |s.ring.slots| == size + 1
    && RingInv(s.ring, s.inserted, s.removed)
    && Exclusive(s.lock, s.pcs, CRITICAL) && Tokens(s, size)
    && (forall i :: 0 <= i < |s.pcs| ==> LocalAt(s, i))
  }

  lemma InitInv(s: State, size: nat)
    requires Init(s, size) && 0 < size
    ensures Inv(s, size)
  {
    CountNone(s.pcs, TAKING);
    CountNone(s.pcs, UNPOSTED);
    CountNone(s.pcs, CLAIMED);
    CountNone(s.pcs, UNRETURNED);
  }

  /** The three steps that touch the ring. */
  lemma MovesKeepRing(s: State, e: Event, size: nat)
    requires Inv(s, size) && Enabled(s, e) && e.Step? && s.pcs[e.thread] in {PWrite, PMove, CMove}
    ensures var s' := Next(s, e); RingInv(s'.ring, s'.inserted, s'.removed)
  {
    var i := e.thread;
    assert LocalAt(s, i);
    match s.pcs[i]
    case PWrite => Write(s.ring, s.inserted, s.removed, s.items[i]);
    case PMove =>
      CountAtLeast(s.pcs, i, CLAIMED);
      Put(s.ring, s.inserted, s.removed);
    case CMove =>
      CountAtLeast(s.pcs, i, TAKING);
      Take(s.ring, s.inserted, s.removed);
  }

  lemma NextKeepsRing(s: State, e: Event, size: nat)
    requires Inv(s, size) && Enabled(s, e)
    ensures var s' := Next(s, e); RingInv(s'.ring, s'.inserted, s'.removed) && |s'.ring.slots| == size + 1
  {
    if e.Step? && s.pcs[e.thread] in {PWrite, PMove, CMove} {
      MovesKeepRing(s, e, size);
    } else {
      var s' := Next(s, e);
      assert s'.ring == s.ring && s'.inserted == s.inserted && s'.removed == s.removed;
    }
  }

  /** A step leaves the place and the variables of every other thread alone. */
  lemma OthersStay(s: State, e: Event, j: nat)
    requires Enabled(s, e) && j < |s.pcs| && j != e.thread
    ensures var s' := Next(s, e); |s'.items| == |s'.pcs| == |s.pcs| && s'.pcs[j] == s.pcs[j] && s'.items[j] == s.items[j]
  {
  }

  lemma LockPasses(s: State, e: Event)
    requires Enabled(s, e)
    ensures var s', i := Next(s, e), e.thread;
      s'.pcs == s.pcs[i := s'.pcs[i]] && Passes(s.lock, i, s.pcs[i], s'.pcs[i], s'.lock, CRITICAL)
  {
  }

  lemma NextKeepsExclusive(s: State, e: Event)
    requires Exclusive(s.lock, s.pcs, CRITICAL) && Enabled(s, e)
    ensures Exclusive(Next(s, e).lock, Next(s, e).pcs, CRITICAL)
  {
    LockPasses(s, e);
    PassKeepsExclusive(s.lock, s.pcs, e.thread, Next(s, e).pcs[e.thread], Next(s, e).lock, CRITICAL);
  }

  /** Tokens that `full` accounts for: they move together with the thread. */
  lemma NextKeepsFull(s: State, e: Event, size: nat)
    requires Inv(s, size) && Enabled(s, e)
    ensures var s' := Next(s, e);
      |s'.inserted| - |s'.removed| == s'.full + Count(s'.pcs, TAKING) + Count(s'.pcs, UNPOSTED)
  {
    var i, pc := e.thread, Next(s, e).pcs[e.thread];
    CountUpdate(s.pcs, i, pc, TAKING);
    CountUpdate(s.pcs, i, pc, UNPOSTED);
    FullMoves(s, e);
  }

  lemma FullMoves(s: State, e: Event)
    requires Enabled(s, e)
    ensures var s', i := Next(s, e), e.thread;
      && s'.pcs == s.pcs[i := s'.pcs[i]]
      && |s'.inserted| - |s'.removed| - s'.full - In(s'.pcs[i], TAKING) - In(s'.pcs[i], UNPOSTED)
         == |s.inserted| - |s.removed| - s.full - In(s.pcs[i], TAKING) - In(s.pcs[i], UNPOSTED)
  {
  }

  lemma EmptyMoves(s: State, e: Event)
    requires Enabled(s, e)
    ensures var s', i := Next(s, e), e.thread;
      && s'.pcs == s.pcs[i := s'.pcs[i]]
      && |s'.inserted| - |s'.removed| + s'.empty + In(s'.pcs[i], CLAIMED) + In(s'.pcs[i], UNRETURNED)
         == |s.inserted| - |s.removed| + s.empty + In(s.pcs[i], CLAIMED) + In(s.pcs[i], UNRETURNED)
  {
  }

  /** Tokens that `empty` accounts for. */
  lemma NextKeepsEmpty(s: State, e: Event, size: nat)
    requires Inv(s, size) && Enabled(s, e)
    ensures var s' := Next(s, e);
      size - (|s'.inserted| - |s'.removed|) == s'.empty + Count(s'.pcs, CLAIMED) + Count(s'.pcs, UNRETURNED)
  {
    var i, pc := e.thread, Next(s, e).pcs[e.thread];
    CountUpdate(s.pcs, i, pc, CLAIMED);
    CountUpdate(s.pcs, i, pc, UNRETURNED);
    EmptyMoves(s, e);
  }

  /** While a thread is in its critical section no other thread changes a slot or an index. */
  lemma Undisturbed(s: State, e: Event, j: nat)
    requires Exclusive(s.lock, s.pcs, CRITICAL) && |s.items| == |s.pcs| && Enabled(s, e)
    requires j < |s.pcs| && j != e.thread && s.pcs[j] in CRITICAL
    ensures Next(s, e).ring == s.ring && Next(s, e).items[j] == s.items[j]
  {
    assert s.lock == Some(j);
    assert s.pcs[e.thread] !in CRITICAL;
  }

  lemma OwnLocal(s: State, e: Event, size: nat)
    requires Inv(s, size) && Enabled(s, e)
    ensures LocalAt(Next(s, e), e.thread)
  {
    NextKeepsRing(s, e, size);
  }

  lemma OtherLocal(s: State, e: Event, size: nat, j: nat)
    requires Inv(s, size) && Enabled(s, e) && j < |s.pcs| && j != e.thread
    ensures LocalAt(Next(s, e), j)
  {
    assert LocalAt(s, j);
    NextKeepsRing(s, e, size);
    OthersStay(s, e, j);
    if s.pcs[j] in {PMove, CMove} { Undisturbed(s, e, j); }
  }

  lemma NextKeepsLocals(s: State, e: Event, size: nat)
    requires Inv(s, size) && Enabled(s, e)
    ensures forall j :: 0 <= j < |Next(s, e).pcs| ==> LocalAt(Next(s, e), j)
  {
    forall j | 0 <= j < |Next(s, e).pcs|
      ensures LocalAt(Next(s, e), j)
    {
      if j == e.thread { OwnLocal(s, e, size); } else { OtherLocal(s, e, size, j); }
    }
  }

  /** Every step of every thread, and every cancellation, keeps the invariant. */
  lemma NextKeepsInv(s: State, e: Event, size: nat)
    requires Inv(s, size) && Enabled(s, e)
    ensures Inv(Next(s, e), size)
  {
    NextKeepsRing(s, e, size);
    NextKeepsExclusive(s, e);
    NextKeepsFull(s, e, size);
    NextKeepsEmpty(s, e, size);
    NextKeepsLocals(s, e, size);
  }

  // ----- whole runs -----

  ghost predicate Run(states: seq<State>, events: seq<Event>, size: nat) {
    && |states| == |events| + 1 && Init(states[0], size)
    && forall i, j :: 0 <= i && j == i + 1 < |states| ==> Follows(states[i], events[i], states[j])
  }

  ghost predicate Follows(s: State, e: Event, s': State) {
    Enabled(s, e) && s' == Next(s, e)
  }

  lemma {:induction false} RunKeepsInv(states: seq<State>, events: seq<Event>, size: nat, i: nat)
    requires Run(states, events, size) && 0 < size && i < |states|
    ensures Inv(states[i], size)
  {
    if i == 0 {
      InitInv(states[0], size);
    } else {
      RunKeepsInv(states, events, size, i - 1);
      assert Follows(states[i - 1], events[i - 1], states[i]);
      NextKeepsInv(states[i - 1], events[i - 1], size);
    }
  }

  /** In every reachable state: what was removed is a prefix of what was inserted; no two threads are in
    * the critical section; and the semaphores and the threads between them hold exactly `size` tokens. */
  lemma Guarantees(s: State, size: nat)
    requires Inv(s, size)
    ensures s.removed <= s.inserted && |s.inserted| - |s.removed| <= size
    ensures forall i, k :: 0 <= i < |s.pcs| && 0 <= k < |s.pcs| && s.pcs[i] in CRITICAL && s.pcs[k] in CRITICAL ==> i == k
    ensures s.empty + s.full + Count(s.pcs, CLAIMED + UNPOSTED + TAKING + UNRETURNED) == size
  {
    CountUnion(s.pcs, CLAIMED, UNPOSTED);
    CountUnion(s.pcs, CLAIMED + UNPOSTED, TAKING);
    CountUnion(s.pcs, CLAIMED + UNPOSTED + TAKING, UNRETURNED);
  }

  /** A producer about to write finds a slot that no unread value is in, and a consumer about to read
    * finds the oldest unread value. */
  lemma SlotsAreRight(s: State, size: nat, i: nat)
    requires Inv(s, size) && i < |s.pcs|
    ensures s.pcs[i] == PWrite ==> |s.inserted| - |s.removed| < size
    ensures s.pcs[i] == PWrite ==> forall k :: InRing(s.inserted, s.removed, k) ==> k % |s.ring.slots| != s.ring.tail
    ensures s.pcs[i] == CRead ==> |s.removed| < |s.inserted| && s.ring.slots[s.ring.head] == s.inserted[|s.removed|]
  {
    if s.pcs[i] == PWrite {
      CountAtLeast(s.pcs, i, CLAIMED);
      forall k | InRing(s.inserted, s.removed, k)
        ensures k % |s.ring.slots| != s.ring.tail
      {
        TailIsFree(s.ring, s.inserted, s.removed, k);
      }
    }
    if s.pcs[i] == CRead {
      CountAtLeast(s.pcs, i, TAKING);
      Take(s.ring, s.inserted, s.removed);
    }
  }

  const PRODUCING := {PSleep, PWait, PLock, PWrite, PMove, PUnlock, PPost}
  const CONSUMING := {CSleep, CWait, CLock, CRead, CMove, CUnlock, CPost}

  ghost predicate CanStep(s: State, i: nat) {
    i < |s.pcs| && Enabled(s, Step(i, 0))
  }

  /** With a live producer and a live consumer some thread can always make a step. */
  lemma NoDeadlock(s: State, size: nat, p: nat, c: nat)
    requires Inv(s, size) && p < |s.pcs| && s.pcs[p] in PRODUCING && c < |s.pcs| && s.pcs[c] in CONSUMING
    ensures exists i :: CanStep(s, i)
  {
    if s.lock.Some? {
      assert CanStep(s, s.lock.value);
    } else if i :| 0 <= i < |s.pcs| && s.pcs[i] !in {PWait, CWait, Cancelled} {
      assert CanStep(s, i);
    } else {
      // nobody holds a token, so one of the two semaphores is positive
      CountNone(s.pcs, TAKING);
      CountNone(s.pcs, UNPOSTED);
      CountNone(s.pcs, CLAIMED);
      CountNone(s.pcs, UNRETURNED);
      assert CanStep(s, p) || CanStep(s, c);
    }
  }
}
