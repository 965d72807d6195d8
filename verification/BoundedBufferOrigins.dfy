/** Where the values in the buffer come from: the numbers that the producers drew. */
module BoundedBufferOrigins {
  import opened Options
  import opened Counting
  import opened BoundedBuffer

  /** A producer with a number that is not yet in the buffer. */
  const CARRYING := {PWait, PLock, PWrite, PMove}

  /** A producer wakes up and draws a number. */
  ghost predicate Draw(s: State, e: Event) {
    e.Step? && e.thread < |s.pcs| && s.pcs[e.thread] == PSleep
  }

  /** A producer is cancelled while it waits for room; its number is lost. */
  ghost predicate Loss(s: State, e: Event) {
    e.Cancel? && e.thread < |s.pcs| == |s.items| && s.pcs[e.thread] == PWait
  }

  ghost predicate Inserts(s: State, e: Event) {
    e.Step? && e.thread < |s.pcs| && s.pcs[e.thread] == PMove
  }

  /** Event `k` is a draw by thread `i`. */
  ghost predicate Draws(states: seq<State>, events: seq<Event>, i: nat, k: nat) {
    k < |events| && k < |states| && events[k].thread == i && Draw(states[k], events[k])
  }

  /** Event `k` is the latest draw of thread `i` among the first `n` events. */
  ghost predicate Latest(states: seq<State>, events: seq<Event>, i: nat, n: nat, k: nat) {
    k < n && Draws(states, events, i, k) && forall j :: k < j < n ==> !Draws(states, events, i, j)
  }

  ghost predicate HoldsLatest(states: seq<State>, events: seq<Event>, i: nat, n: nat) {
    && n < |states| && i < |states[n].items|
    && exists k: nat :: k < |events| && Latest(states, events, i, n, k) && states[n].items[i] == events[k].value
  }

  lemma OneStep(states: seq<State>, events: seq<Event>, size: nat, n: nat)
    requires Run(states, events, size) && n < |events|
    ensures Follows(states[n], events[n], states[n + 1])
  {
    assert n + 1 < |states|;
  }

  /** A step that is no draw leaves a producer its number. */
  lemma KeepsValue(s: State, e: Event, i: nat)
    requires Enabled(s, e) && i < |s.pcs|
    ensures var s' := Next(s, e);
      && |s'.pcs| == |s'.items| == |s.pcs|
      && (s'.pcs[i] in CARRYING ==>
            if e.Step? && e.thread == i && s.pcs[i] == PSleep then s'.items[i] == e.value
            else s.pcs[i] in CARRYING && s'.items[i] == s.items[i])
  {
    if i != e.thread { OthersStay(s, e, i); }
  }

  lemma LatestLater(states: seq<State>, events: seq<Event>, i: nat, n: nat, k: nat)
    requires Latest(states, events, i, n, k) && !Draws(states, events, i, n)
    ensures Latest(states, events, i, n + 1, k)
  {
  }

  lemma HoldsLater(states: seq<State>, events: seq<Event>, i: nat, n: nat)
    requires n < |events| && n + 1 < |states| && Follows(states[n], events[n], states[n + 1]) && i < |states[n].pcs|
    requires states[n + 1].pcs[i] in CARRYING
    requires Draws(states, events, i, n) || HoldsLatest(states, events, i, n)
    ensures HoldsLatest(states, events, i, n + 1)
  {
    KeepsValue(states[n], events[n], i);
    if Draws(states, events, i, n) {
      assert Latest(states, events, i, n + 1, n);
    } else {
      var k: nat :| k < |events| && Latest(states, events, i, n, k) && states[n].items[i] == events[k].value;
      LatestLater(states, events, i, n, k);
    }
  }

  lemma CarryingBefore(states: seq<State>, events: seq<Event>, size: nat, i: nat, n: nat)
    requires Run(states, events, size) && n < |events| && i < |states[n + 1].pcs| && states[n + 1].pcs[i] in CARRYING
    ensures i < |states[n].pcs| && Follows(states[n], events[n], states[n + 1])
    ensures Draws(states, events, i, n) || states[n].pcs[i] in CARRYING
  {
    OneStep(states, events, size, n);
    KeepsValue(states[n], events[n], i);
  }

  /** A producer on its way into the buffer has the number it drew last. */
  lemma {:induction false} ProducerHoldsItsNumber(states: seq<State>, events: seq<Event>, size: nat, i: nat, n: nat)
    requires Run(states, events, size) && n < |states| && i < |states[n].pcs| && states[n].pcs[i] in CARRYING
    ensures HoldsLatest(states, events, i, n)
  {
    if n > 0 {
      CarryingBefore(states, events, size, i, n - 1);
      if !Draws(states, events, i, n - 1) { ProducerHoldsItsNumber(states, events, size, i, n - 1); }
      HoldsLater(states, events, i, n - 1);
    }
  }

  lemma OnlyOneStepInserts(s: State, e: Event)
    requires Enabled(s, e)
    ensures Next(s, e).inserted == if Inserts(s, e) then s.inserted + [s.items[e.thread]] else s.inserted
  {
  }

  /** The buffer is filled only by a producer that has written its slot, and only with the number that this
    * producer drew last. */
  lemma {:induction false} InsertsTheDrawnNumber(states: seq<State>, events: seq<Event>, size: nat, n: nat)
    requires Run(states, events, size) && n < |events|
    ensures if Inserts(states[n], events[n]) then
        exists k: nat :: k < |events| && Latest(states, events, events[n].thread, n, k)
          && states[n + 1].inserted == states[n].inserted + [events[k].value]
      else states[n + 1].inserted == states[n].inserted
  {
    OneStep(states, events, size, n);
    OnlyOneStepInserts(states[n], events[n]);
    if Inserts(states[n], events[n]) { ProducerHoldsItsNumber(states, events, size, events[n].thread, n); }
  }

  // ----- every number drawn -----

  /** The numbers drawn with the first `n` events. */
  ghost function Drawn(states: seq<State>, events: seq<Event>, n: nat): seq<int>
    requires n <= |events| < |states|
  {
    if n == 0 then []
    else
      var before := Drawn(states, events, n - 1);
      if Draw(states[n - 1], events[n - 1]) then before + [events[n - 1].value] else before
  }

  /** The numbers lost with the first `n` events. */
  ghost function Lost(states: seq<State>, events: seq<Event>, n: nat): seq<int>
    requires n <= |events| < |states|
  {
    if n == 0 then []
    else
      var before := Lost(states, events, n - 1);
      if Loss(states[n - 1], events[n - 1]) then before + [states[n - 1].items[events[n - 1].thread]] else before
  }

  ghost function Carried(s: State, v: int): nat
    requires |s.pcs| == |s.items|
  {
    Held(s.pcs, s.items, CARRYING, v, |s.pcs|)
  }

  /** A draw, a loss and an insertion change what a producer carries; other steps do not. */
  lemma CarriedMove(s: State, e: Event)
    requires Enabled(s, e)
    ensures var s', pc, pc' := Next(s, e), s.pcs[e.thread], Next(s, e).pcs[e.thread];
      && (Draw(s, e) ==> pc !in CARRYING && pc' in CARRYING && s'.items[e.thread] == e.value)
      && (Loss(s, e) || Inserts(s, e) ==> pc in CARRYING && pc' !in CARRYING)
  {
  }

  lemma CarriedKept(s: State, e: Event)
    requires Enabled(s, e) && !Draw(s, e) && !Loss(s, e) && !Inserts(s, e)
    ensures var s', i := Next(s, e), e.thread;
      (s.pcs[i] in CARRYING <==> s'.pcs[i] in CARRYING) && (s.pcs[i] in CARRYING ==> s'.items[i] == s.items[i])
  {
  }

  lemma CarriedChange(s: State, e: Event, v: int)
    requires Enabled(s, e)
    ensures var s', i := Next(s, e), e.thread;
      Hand(s'.pcs[i], s'.items[i], CARRYING, v) + Times(s'.inserted, v)
        + (if Loss(s, e) && s.items[i] == v then 1 else 0)
      == Hand(s.pcs[i], s.items[i], CARRYING, v) + Times(s.inserted, v)
        + (if Draw(s, e) && e.value == v then 1 else 0)
  {
    OnlyOneStepInserts(s, e);
    CarriedMove(s, e);
    TimesSnoc(s.inserted, s.items[e.thread], v);
    if !Draw(s, e) && !Loss(s, e) && !Inserts(s, e) { CarriedKept(s, e); }
  }

  lemma OnlyOwnItem(s: State, e: Event)
    requires Enabled(s, e)
    ensures var s', i := Next(s, e), e.thread; s'.pcs == s.pcs[i := s'.pcs[i]] && s'.items == s.items[i := s'.items[i]]
  {
  }

  lemma StepAccounts(s: State, e: Event, s': State, v: int)
    requires Follows(s, e, s')
    ensures |s'.pcs| == |s'.items|
    ensures Carried(s', v) + Times(s'.inserted, v) + (if Loss(s, e) && s.items[e.thread] == v then 1 else 0)
      == Carried(s, v) + Times(s.inserted, v) + (if Draw(s, e) && e.value == v then 1 else 0)
  {
    var i := e.thread;
    OnlyOwnItem(s, e);
    CarriedChange(s, e, v);
    HeldUpdate(s.pcs, s.items, CARRYING, i, s'.pcs[i], s'.items[i], v, |s.pcs|);
  }

  lemma LogsGrow(states: seq<State>, events: seq<Event>, n: nat, v: int)
    requires n < |events| < |states|
    ensures Times(Drawn(states, events, n + 1), v) == Times(Drawn(states, events, n), v)
      + if Draw(states[n], events[n]) && events[n].value == v then 1 else 0
    ensures Times(Lost(states, events, n + 1), v) == Times(Lost(states, events, n), v)
      + if Loss(states[n], events[n]) && states[n].items[events[n].thread] == v then 1 else 0
  {
    if Draw(states[n], events[n]) { TimesSnoc(Drawn(states, events, n), events[n].value, v); }
    if Loss(states[n], events[n]) { TimesSnoc(Lost(states, events, n), states[n].items[events[n].thread], v); }
  }

  lemma NothingCarried(s: State, size: nat, v: int)
    requires Init(s, size)
    ensures |s.pcs| == |s.items| && Carried(s, v) == 0 && Times(s.inserted, v) == 0
  {
    HeldNothing(s.pcs, s.items, CARRYING, v, |s.pcs|);
  }

  /** Each number drawn has been inserted, is still with its producer, or was lost when that producer was
    * cancelled in its wait, as often in all as it was drawn. */
  lemma {:induction false} NumbersAccountedFor(states: seq<State>, events: seq<Event>, size: nat, n: nat, v: int)
    requires Run(states, events, size) && n <= |events|
    ensures |states[n].pcs| == |states[n].items|
    ensures Times(Drawn(states, events, n), v) ==
      Times(states[n].inserted, v) + Carried(states[n], v) + Times(Lost(states, events, n), v)
  {
    if n == 0 {
      NothingCarried(states[0], size, v);
    } else {
      NumbersAccountedFor(states, events, size, n - 1, v);
      OneStep(states, events, size, n - 1);
      StepAccounts(states[n - 1], events[n - 1], states[n], v);
      LogsGrow(states, events, n - 1, v);
    }
  }
}
