/** Whole runs of the virtual memory manager: when the TLB and the frames are invisible. */
module PagingTheorems {
  import opened Options
  import opened DistinctSeqs
  import opened Modulo
  import opened Paging
  import opened PagingInvariant

  /** The pages of the faults and of the TLB misses so far. */
  datatype Logs = Logs(faults: seq<nat>, misses: seq<nat>)

  /** How an access to page `p` extends the logs. */
  ghost function Logged(l: Logs, p: nat, frames: nat, slots: nat): Logs {
    if Recent(p, l.misses, slots) then l
    else Logs(if Recent(p, l.faults, frames) then l.faults else l.faults + [p], l.misses + [p])
  }

  ghost function LogsOf(run: seq<nat>, frames: nat, slots: nat): Logs {
    if run == [] then Logs([], [])
    else Logged(LogsOf(run[..|run| - 1], frames, slots), PageOf(run[|run| - 1]), frames, slots)
  }

  /** init: no page is resident and no TLB entry is valid. */
  ghost function Start(frames: nat, slots: nat): (v: Vm)
    requires 0 < frames && 0 < slots
    ensures Sized(v, frames, slots)
  {
    Vm(Core(seq(PAGES, _ => 0), seq(PAGES, _ => false), seq(frames * PAGE_SIZE, _ => 0), 0, 0),
       seq(slots, _ => Entry(false, 0, 0)), 0, 0, 0)
  }

  /** The state after the logical addresses of `run` have been accessed. */
  ghost function After(run: seq<nat>, store: seq<Byte>, frames: nat, slots: nat): (v: Vm)
    requires 0 < frames && 0 < slots && |store| == PAGES * PAGE_SIZE
    ensures Sized(v, frames, slots)
  {
    if run == [] then Start(frames, slots)
    else Translated(After(run[..|run| - 1], store, frames, slots), run[|run| - 1], store, frames, slots).0
  }

  /** The byte that an access after `run` reads; None if the physical address is outside the memory. */
  ghost function Fetched(run: seq<nat>, logical: nat, store: seq<Byte>, frames: nat, slots: nat): Option<Byte>
    requires 0 < frames && 0 < slots && |store| == PAGES * PAGE_SIZE
  {
    var (v, physical) := Translated(After(run, store, frames, slots), logical, store, frames, slots);
    if physical < |v.core.memory| then Some(v.core.memory[physical]) else None
  }

  /** The page is in the TLB although it has been evicted. */
  ghost predicate Stale(l: Logs, p: nat, frames: nat, slots: nat) {
    Recent(p, l.misses, slots) && !Recent(p, l.faults, frames)
  }

  ghost predicate Inv(v: Vm, l: Logs, store: seq<Byte>, frames: nat, slots: nat) {
    CoreInv(v.core, l.faults, store, frames) && TlbInv(v, l.misses, slots)
  }

  lemma StartInv(store: seq<Byte>, frames: nat, slots: nat)
    requires 0 < frames && 0 < slots && |store| == PAGES * PAGE_SIZE
    ensures Inv(Start(frames, slots), Logs([], []), store, frames, slots)
  {
    ModUnique(0, slots, 0, 0);
  }

  /** Every access follows the logs. */
  lemma StepKeepsInv(v: Vm, l: Logs, logical: nat, store: seq<Byte>, frames: nat, slots: nat)
    requires Inv(v, l, store, frames, slots) && |Logged(l, PageOf(logical), frames, slots).faults| <= WRAP
    ensures Inv(Translated(v, logical, store, frames, slots).0, Logged(l, PageOf(logical), frames, slots),
                store, frames, slots)
  {
    var p := PageOf(logical);
    var v' := Translated(v, logical, store, frames, slots).0;
    LookupFinds(v, l.misses, slots, p);
    ResidentPages(v.core, l.faults, store, frames);
    if Recent(p, l.misses, slots) {
      assert forall k :: InWindow(k, l.misses, slots) ==> Cached(v, l.misses, slots, k);
      assert forall k :: InWindow(k, l.misses, slots) ==> Cached(v', l.misses, slots, k);
    } else {
      if !v.core.resident[p] { FaultKeepsInv(v.core, l.faults, p, store, frames); }
      MissKeepsTlbInv(v, l.misses, slots, p, v');
    }
  }

  /** The run has at most 2^32 page faults: the counter of the frames does not wrap around. */
  ghost predicate NoWrap(run: seq<nat>, frames: nat, slots: nat) {
    |LogsOf(run, frames, slots).faults| <= WRAP
  }

  /** In every run of at most 2^32 faults the state is the one that the logs describe. */
  lemma {:induction false} RunKeepsInv(run: seq<nat>, store: seq<Byte>, frames: nat, slots: nat)
    requires 0 < frames && 0 < slots && |store| == PAGES * PAGE_SIZE && NoWrap(run, frames, slots)
    ensures Inv(After(run, store, frames, slots), LogsOf(run, frames, slots), store, frames, slots)
  {
    if run == [] {
      StartInv(store, frames, slots);
    } else {
      var before := run[..|run| - 1];
      RunKeepsInv(before, store, frames, slots);
      StepKeepsInv(After(before, store, frames, slots), LogsOf(before, frames, slots), run[|run| - 1],
                   store, frames, slots);
    }
  }

  lemma StepCounts(v: Vm, l: Logs, logical: nat, store: seq<Byte>, frames: nat, slots: nat)
    requires Inv(v, l, store, frames, slots)
    ensures var v' := Translated(v, logical, store, frames, slots).0;
      && v'.total == (v.total + 1) % WRAP
      && v'.misses == if Recent(PageOf(logical), l.misses, slots) then v.misses else (v.misses + 1) % WRAP
  {
    LookupFinds(v, l.misses, slots, PageOf(logical));
  }

  lemma CountOn(n: nat, counter: nat)
    requires counter == n % WRAP
    ensures (counter + 1) % WRAP == (n + 1) % WRAP
  {
  }

  lemma AccessCounted(v: Vm, n: nat, logical: nat, store: seq<Byte>, frames: nat, slots: nat)
    requires Sized(v, frames, slots) && |store| == PAGES * PAGE_SIZE && v.total == n % WRAP
    ensures Translated(v, logical, store, frames, slots).0.total == (n + 1) % WRAP
  {
    CountOn(n, v.total);
  }

  lemma {:induction false} AccessesCounted(run: seq<nat>, store: seq<Byte>, frames: nat, slots: nat)
    requires 0 < frames && 0 < slots && |store| == PAGES * PAGE_SIZE
    ensures After(run, store, frames, slots).total == |run| % WRAP
  {
    if run != [] {
      var before := run[..|run| - 1];
      AccessesCounted(before, store, frames, slots);
      AccessCounted(After(before, store, frames, slots), |before|, run[|run| - 1], store, frames, slots);
    }
  }

  lemma MissCounted(v: Vm, l: Logs, logical: nat, store: seq<Byte>, frames: nat, slots: nat)
    requires Inv(v, l, store, frames, slots) && v.misses == |l.misses| % WRAP
    ensures Translated(v, logical, store, frames, slots).0.misses
      == |Logged(l, PageOf(logical), frames, slots).misses| % WRAP
  {
    StepCounts(v, l, logical, store, frames, slots);
    CountOn(|l.misses|, v.misses);
  }

  lemma {:induction false} MissesCounted(run: seq<nat>, store: seq<Byte>, frames: nat, slots: nat)
    requires 0 < frames && 0 < slots && |store| == PAGES * PAGE_SIZE && NoWrap(run, frames, slots)
    ensures After(run, store, frames, slots).misses == |LogsOf(run, frames, slots).misses| % WRAP
  {
    if run != [] {
      var before := run[..|run| - 1];
      MissesCounted(before, store, frames, slots);
      RunKeepsInv(before, store, frames, slots);
      MissCounted(After(before, store, frames, slots), LogsOf(before, frames, slots), run[|run| - 1],
                  store, frames, slots);
    }
  }

  /** The three counters of the statistics: accesses, TLB misses and page faults, modulo 2^32. */
  lemma CountersAreRight(run: seq<nat>, store: seq<Byte>, frames: nat, slots: nat)
    requires 0 < frames && 0 < slots && |store| == PAGES * PAGE_SIZE && NoWrap(run, frames, slots)
    ensures var v, l := After(run, store, frames, slots), LogsOf(run, frames, slots);
      && v.total == |run| % WRAP && v.misses == |l.misses| % WRAP && v.core.faults == |l.faults| % WRAP
  {
    AccessesCounted(run, store, frames, slots);
    MissesCounted(run, store, frames, slots);
    RunKeepsInv(run, store, frames, slots);
  }

  /** Every physical address is formed from the page table, hit or miss. */
  lemma PhysicalFromTable(v: Vm, l: Logs, logical: nat, store: seq<Byte>, frames: nat, slots: nat)
    requires Inv(v, l, store, frames, slots)
    ensures var (v', physical) := Translated(v, logical, store, frames, slots);
      && physical == v'.core.table[PageOf(logical)] * PAGE_SIZE + OffsetOf(logical)
      && forall q :: 0 <= q < PAGES && q != PageOf(logical) ==> v'.core.table[q] == v.core.table[q]
  {
    LookupFinds(v, l.misses, slots, PageOf(logical));
  }

  lemma {:induction false} ReadResident(c: Core, log: seq<nat>, store: seq<Byte>, frames: nat, logical: nat)
    requires CoreInv(c, log, store, frames) && Recent(PageOf(logical), log, frames)
    ensures var physical := c.table[PageOf(logical)] * PAGE_SIZE + OffsetOf(logical);
      physical < |c.memory| && c.memory[physical] == store[logical % (PAGES * PAGE_SIZE)]
  {
    ResidentPages(c, log, store, frames);
    ResidentContents(c, log, store, frames, PageOf(logical), OffsetOf(logical));
    AddressSplit(logical);
  }

  lemma AddressSplit(logical: nat)
    ensures logical % (PAGES * PAGE_SIZE) == PageOf(logical) * PAGE_SIZE + OffsetOf(logical)
  {
  }

  lemma {:induction false} FreshStepReads(v: Vm, l: Logs, logical: nat, store: seq<Byte>, frames: nat, slots: nat)
    requires Inv(v, l, store, frames, slots) && |Logged(l, PageOf(logical), frames, slots).faults| <= WRAP
    requires !Stale(l, PageOf(logical), frames, slots)
    ensures var (v', physical) := Translated(v, logical, store, frames, slots);
      physical < |v'.core.memory| && v'.core.memory[physical] == store[logical % (PAGES * PAGE_SIZE)]
  {
    var p := PageOf(logical);
    var l' := Logged(l, p, frames, slots);
    StepKeepsInv(v, l, logical, store, frames, slots);
    PhysicalFromTable(v, l, logical, store, frames, slots);
    RecentSnoc(p, l.faults, p, frames);
    ReadResident(Translated(v, logical, store, frames, slots).0.core, l'.faults, store, frames, logical);
  }

  /** An access that is no stale hit reads the byte of the backing store at the logical address mod 2^16. */
  lemma {:induction false} FreshReadsStore(run: seq<nat>, logical: nat, store: seq<Byte>, frames: nat, slots: nat)
    requires 0 < frames && 0 < slots && |store| == PAGES * PAGE_SIZE && NoWrap(run + [logical], frames, slots)
    requires !Stale(LogsOf(run, frames, slots), PageOf(logical), frames, slots)
    ensures Fetched(run, logical, store, frames, slots) == Some(store[logical % (PAGES * PAGE_SIZE)])
  {
    LogsSnoc(run, logical, frames, slots);
    RunKeepsInv(run, store, frames, slots);
    FreshStepReads(After(run, store, frames, slots), LogsOf(run, frames, slots), logical, store, frames, slots);
  }

  // ----- the manager without a TLB -----

  ghost function PlainAfter(run: seq<nat>, store: seq<Byte>, frames: nat): (c: Core)
    requires 0 < frames && |store| == PAGES * PAGE_SIZE
    ensures CoreSized(c, frames)
  {
    if run == [] then Start(frames, 1).core
    else TranslatedPlain(PlainAfter(run[..|run| - 1], store, frames), run[|run| - 1], store, frames).0
  }

  ghost predicate NeverStale(run: seq<nat>, frames: nat, slots: nat) {
    forall i :: 0 <= i < |run| ==> !Stale(LogsOf(run[..i], frames, slots), PageOf(run[i]), frames, slots)
  }

  lemma {:induction false} FreshStepIsPlain(v: Vm, l: Logs, logical: nat, store: seq<Byte>, frames: nat, slots: nat)
    requires Inv(v, l, store, frames, slots) && !Stale(l, PageOf(logical), frames, slots)
    ensures var (v', physical) := Translated(v, logical, store, frames, slots);
      (v'.core, physical) == TranslatedPlain(v.core, logical, store, frames)
  {
    LookupFinds(v, l.misses, slots, PageOf(logical));
    ResidentPages(v.core, l.faults, store, frames);
  }

  /** In a run without a stale hit the TLB is invisible: page table, memory and fault count are those
    * of a manager without one, and so is the next physical address, if it is no stale hit either. */
  lemma {:induction false} SameAsPlain(run: seq<nat>, logical: nat, store: seq<Byte>, frames: nat, slots: nat)
    requires 0 < frames && 0 < slots && |store| == PAGES * PAGE_SIZE && NoWrap(run, frames, slots)
    requires NeverStale(run + [logical], frames, slots)
    ensures After(run, store, frames, slots).core == PlainAfter(run, store, frames)
    ensures Translated(After(run, store, frames, slots), logical, store, frames, slots).1 ==
            TranslatedPlain(PlainAfter(run, store, frames), logical, store, frames).1
  {
    var all := run + [logical];
    if run != [] {
      var n := |run| - 1;
      var before := run[..n];
      assert before + [run[n]] == run == all[..|run|];
      LogsSnoc(before, run[n], frames, slots);
      forall i | 0 <= i < |run|
        ensures !Stale(LogsOf(run[..i], frames, slots), PageOf(run[i]), frames, slots)
      {
        assert all[..i] == run[..i] && all[i] == run[i];
      }
      SameAsPlain(before, run[n], store, frames, slots);
      RunKeepsInv(before, store, frames, slots);
      FreshStepIsPlain(After(before, store, frames, slots), LogsOf(before, frames, slots), run[n], store, frames, slots);
    }
    RunKeepsInv(run, store, frames, slots);
    assert all[..|run|] == run && all[|run|] == logical;
    FreshStepIsPlain(After(run, store, frames, slots), LogsOf(run, frames, slots), logical, store, frames, slots);
  }

  /** A stale hit does without the fault that the manager without TLB has. */
  lemma {:induction false} StaleStepDiffers(v: Vm, l: Logs, logical: nat, store: seq<Byte>, frames: nat, slots: nat)
    requires Inv(v, l, store, frames, slots) && Stale(l, PageOf(logical), frames, slots)
    ensures Translated(v, logical, store, frames, slots).0.core != TranslatedPlain(v.core, logical, store, frames).0
  {
    LookupFinds(v, l.misses, slots, PageOf(logical));
    ResidentPages(v.core, l.faults, store, frames);
    assert Tick(v.core.faults) != v.core.faults;
  }

  /** After every part of the run page table, memory and fault count are those of a manager without TLB. */
  ghost predicate AlwaysPlain(run: seq<nat>, store: seq<Byte>, frames: nat, slots: nat)
    requires 0 < frames && 0 < slots && |store| == PAGES * PAGE_SIZE
  {
    forall i :: 0 <= i <= |run| ==> After(run[..i], store, frames, slots).core == PlainAfter(run[..i], store, frames)
  }

  lemma PrefixNeverStale(run: seq<nat>, i: nat, frames: nat, slots: nat)
    requires i < |run| && NeverStale(run, frames, slots)
    ensures NeverStale(run[..i] + [run[i]], frames, slots)
  {
    var part := run[..i] + [run[i]];
    forall k | 0 <= k < |part|
      ensures !Stale(LogsOf(part[..k], frames, slots), PageOf(part[k]), frames, slots)
    {
      assert part[..k] == run[..k] && part[k] == run[k];
    }
  }

  lemma {:induction false} PrefixNoWrap(run: seq<nat>, i: nat, frames: nat, slots: nat)
    requires i <= |run| && NoWrap(run, frames, slots)
    ensures NoWrap(run[..i], frames, slots)
    decreases |run|
  {
    if i == |run| {
      assert run[..i] == run;
    } else {
      var before := run[..|run| - 1];
      assert before[..i] == run[..i];
      PrefixNoWrap(before, i, frames, slots);
    }
  }

  /** The TLB is invisible throughout a run exactly when no hit in it is stale. */
  lemma {:induction false} AlwaysPlainIff(run: seq<nat>, store: seq<Byte>, frames: nat, slots: nat)
    requires 0 < frames && 0 < slots && |store| == PAGES * PAGE_SIZE && NoWrap(run, frames, slots)
    ensures AlwaysPlain(run, store, frames, slots) <==> NeverStale(run, frames, slots)
  {
    if NeverStale(run, frames, slots) {
      forall i | 0 <= i <= |run|
        ensures After(run[..i], store, frames, slots).core == PlainAfter(run[..i], store, frames)
      {
        if i < |run| {
          PrefixNeverStale(run, i, frames, slots);
          PrefixNoWrap(run, i, frames, slots);
          SameAsPlain(run[..i], run[i], store, frames, slots);
        } else if i > 0 {
          WholeRunPlain(run, store, frames, slots);
        }
      }
    }
    if AlwaysPlain(run, store, frames, slots) {
      forall i | 0 <= i < |run|
        ensures !Stale(LogsOf(run[..i], frames, slots), PageOf(run[i]), frames, slots)
      {
        if Stale(LogsOf(run[..i], frames, slots), PageOf(run[i]), frames, slots) { StaleShows(run, i, store, frames, slots); }
      }
    }
  }

  lemma {:induction false} WholeRunPlain(run: seq<nat>, store: seq<Byte>, frames: nat, slots: nat)
    requires 0 < frames && 0 < slots && |store| == PAGES * PAGE_SIZE && NoWrap(run, frames, slots)
    requires run != [] && NeverStale(run, frames, slots)
    ensures run[..|run|] == run && After(run, store, frames, slots).core == PlainAfter(run, store, frames)
  {
    var n := |run| - 1;
    var before := run[..n];
    assert before + [run[n]] == run;
    PrefixNoWrap(run, n, frames, slots);
    SameAsPlain(before, run[n], store, frames, slots);
    RunKeepsInv(before, store, frames, slots);
    FreshStepIsPlain(After(before, store, frames, slots), LogsOf(before, frames, slots), run[n], store, frames, slots);
  }

  lemma {:induction false} StaleShows(run: seq<nat>, i: nat, store: seq<Byte>, frames: nat, slots: nat)
    requires 0 < frames && 0 < slots && |store| == PAGES * PAGE_SIZE && NoWrap(run, frames, slots) && i < |run|
    requires Stale(LogsOf(run[..i], frames, slots), PageOf(run[i]), frames, slots)
    ensures !AlwaysPlain(run, store, frames, slots)
  {
    var part := run[..i + 1];
    assert part[..|part| - 1] == run[..i] && part[|part| - 1] == run[i];
    PrefixNoWrap(run, i, frames, slots);
    RunKeepsInv(run[..i], store, frames, slots);
    StaleStepDiffers(After(run[..i], store, frames, slots), LogsOf(run[..i], frames, slots), run[i], store, frames, slots);
    assert After(run[..i], store, frames, slots).core == PlainAfter(run[..i], store, frames) ==>
      After(part, store, frames, slots).core != PlainAfter(part, store, frames);
  }

  // ----- when no hit is ever stale -----

  /** With as many slots as frames both queues move in step. */
  lemma {:induction false} InStep(run: seq<nat>, frames: nat)
    ensures LogsOf(run, frames, frames).faults == LogsOf(run, frames, frames).misses
  {
    if run != [] { InStep(run[..|run| - 1], frames); }
  }

  /** With one slot the only page in the TLB is the one accessed last, which is resident. */
  lemma {:induction false} OneSlot(run: seq<nat>, frames: nat, p: nat)
    requires 0 < frames && Recent(p, LogsOf(run, frames, 1).misses, 1)
    ensures Recent(p, LogsOf(run, frames, 1).faults, frames)
  {
    if run == [] {
      assert false;
    } else {
      var l, q := LogsOf(run[..|run| - 1], frames, 1), PageOf(run[|run| - 1]);
      RecentSnoc(p, l.misses, q, 1);
      RecentSnoc(q, l.faults, q, frames);
      if Recent(q, l.misses, 1) { OneSlot(run[..|run| - 1], frames, p); }
    }
  }

  /** Every page that missed has faulted, once at least. */
  lemma {:induction false} MissedMeansFaulted(run: seq<nat>, frames: nat, slots: nat, p: nat)
    requires p in LogsOf(run, frames, slots).misses
    ensures p in LogsOf(run, frames, slots).faults
  {
    if run != [] {
      var l := LogsOf(run[..|run| - 1], frames, slots);
      if p in l.misses { MissedMeansFaulted(run[..|run| - 1], frames, slots, p); }
    }
  }

  /** As long as no fault has evicted a page no entry is stale. */
  lemma {:induction false} FewFaultsNeverStale(run: seq<nat>, frames: nat, slots: nat, p: nat)
    requires |LogsOf(run, frames, slots).faults| <= frames
    ensures !Stale(LogsOf(run, frames, slots), p, frames, slots)
  {
    var l := LogsOf(run, frames, slots);
    if Recent(p, l.misses, slots) {
      MissedMeansFaulted(run, frames, slots, p);
      ShortLogRecent(l.faults, frames);
    }
  }

  ghost function PagesOf(run: seq<nat>): set<nat> {
    set i | 0 <= i < |run| :: PageOf(run[i])
  }

  lemma PagesSnoc(run: seq<nat>)
    requires run != []
    ensures PagesOf(run) == PagesOf(run[..|run| - 1]) + {PageOf(run[|run| - 1])}
  {
    forall i | 0 <= i < |run|
      ensures PageOf(run[i]) in PagesOf(run[..|run| - 1]) + {PageOf(run[|run| - 1])}
    {
      assert i < |run| - 1 ==> run[..|run| - 1][i] == run[i];
    }
  }

  lemma OneMoreFault(log: seq<nat>, q: nat, pages: set<nat>, frames: nat)
    requires Distinct(log, PAGES) && Elems(log) <= pages && |log| <= frames
    requires q < PAGES && q in pages && !Recent(q, log, frames)
    ensures Distinct(log + [q], PAGES) && Elems(log + [q]) <= pages
  {
    ShortLogRecent(log, frames);
    assert q !in log;
    ElemsSnoc(log, q);
  }

  /** A run that uses no more pages than there are frames loads each of them once. */
  lemma {:induction false} FewPagesFewFaults(run: seq<nat>, frames: nat, slots: nat)
    requires |PagesOf(run)| <= frames
    ensures var l := LogsOf(run, frames, slots);
      Distinct(l.faults, PAGES) && Elems(l.faults) <= PagesOf(run) && |l.faults| <= |PagesOf(run)|
  {
    if run != [] {
      var before, q := run[..|run| - 1], PageOf(run[|run| - 1]);
      PagesSnoc(run);
      SubsetSize(PagesOf(before), PagesOf(run));
      FewPagesFewFaults(before, frames, slots);
      var l, l' := LogsOf(before, frames, slots), LogsOf(run, frames, slots);
      if l'.faults != l.faults { OneMoreFault(l.faults, q, PagesOf(run), frames); }
      DistinctSize(l'.faults, PAGES);
      SubsetSize(Elems(l'.faults), PagesOf(run));
    }
  }

  lemma PagesMonotone(run: seq<nat>, more: seq<nat>)
    ensures PagesOf(run) <= PagesOf(run + more)
  {
    forall i | 0 <= i < |run|
      ensures PageOf(run[i]) in PagesOf(run + more)
    {
      assert (run + more)[i] == run[i];
    }
  }

  lemma {:induction false} AtMostAllPages(s: set<nat>)
    requires forall p :: p in s ==> p < PAGES
    ensures |s| <= PAGES
  {
    SubsetSize(s, Below(PAGES));
  }

  /** A run, of any length, in which nothing is evicted: it uses no more pages than there are frames. */
  lemma {:induction false} FewPagesReadStore(run: seq<nat>, logical: nat, store: seq<Byte>, frames: nat, slots: nat)
    requires 0 < frames && 0 < slots && |store| == PAGES * PAGE_SIZE && |PagesOf(run + [logical])| <= frames
    ensures Fetched(run, logical, store, frames, slots) == Some(store[logical % (PAGES * PAGE_SIZE)])
  {
    FewPagesFewFaults(run + [logical], frames, slots);
    AtMostAllPages(PagesOf(run + [logical]));
    PagesMonotone(run, [logical]);
    SubsetSize(PagesOf(run), PagesOf(run + [logical]));
    FewPagesFewFaults(run, frames, slots);
    FewFaultsNeverStale(run, frames, slots, PageOf(logical));
    FreshReadsStore(run, logical, store, frames, slots);
  }

  /** Such a run gives the addresses, the memory and the fault count of a manager without TLB. */
  lemma {:induction false} FewPagesSameAsPlain(run: seq<nat>, logical: nat, store: seq<Byte>, frames: nat, slots: nat)
    requires 0 < frames && 0 < slots && |store| == PAGES * PAGE_SIZE && |PagesOf(run + [logical])| <= frames
    ensures After(run, store, frames, slots).core == PlainAfter(run, store, frames)
    ensures Translated(After(run, store, frames, slots), logical, store, frames, slots).1 ==
            TranslatedPlain(PlainAfter(run, store, frames), logical, store, frames).1
  {
    var all := run + [logical];
    forall i | 0 <= i < |all|
      ensures !Stale(LogsOf(all[..i], frames, slots), PageOf(all[i]), frames, slots)
    {
      assert all[..i] + all[i..] == all;
      PagesMonotone(all[..i], all[i..]);
      SubsetSize(PagesOf(all[..i]), PagesOf(all));
      FewPagesFewFaults(all[..i], frames, slots);
      FewFaultsNeverStale(all[..i], frames, slots, PageOf(all[i]));
    }
    PagesMonotone(run, [logical]);
    SubsetSize(PagesOf(run), PagesOf(all));
    FewPagesFewFaults(run, frames, slots);
    AtMostAllPages(PagesOf(run));
    SameAsPlain(run, logical, store, frames, slots);
  }

  lemma ShortLogRecent(log: seq<nat>, n: nat)
    requires |log| <= n
    ensures forall p: nat :: p in log ==> Recent(p, log, n)
  {
    forall p: nat | p in log
      ensures Recent(p, log, n)
    {
      var k :| 0 <= k < |log| && log[k] == p;
      assert InWindow(k, log, n);
    }
  }

  /** With a frame for every page nothing is ever evicted. */
  lemma {:induction false} NoEviction(run: seq<nat>, frames: nat, slots: nat)
    requires PAGES <= frames
    ensures var l := LogsOf(run, frames, slots);
      && Distinct(l.faults, PAGES) && |l.faults| <= PAGES
      && forall p: nat :: p in l.misses ==> Recent(p, l.faults, frames)
  {
    var l := LogsOf(run, frames, slots);
    AtMostAllPages(PagesOf(run));
    FewPagesFewFaults(run, frames, slots);
    forall p: nat | p in l.misses
      ensures Recent(p, l.faults, frames)
    {
      MissedMeansFaulted(run, frames, slots, p);
      ShortLogRecent(l.faults, frames);
    }
  }

  lemma SafeSizesNeverStale(run: seq<nat>, p: nat, frames: nat, slots: nat)
    requires 0 < frames && 0 < slots && (PAGES <= frames || slots == 1 || slots == frames)
    ensures !Stale(LogsOf(run, frames, slots), p, frames, slots)
  {
    if Stale(LogsOf(run, frames, slots), p, frames, slots) {
      if PAGES <= frames { NoEviction(run, frames, slots); }
      else if slots == 1 { OneSlot(run, frames, p); }
      else { InStep(run, frames); }
    }
  }

  // ----- when some hit is stale -----

  /** The first byte of pages 0, 1, ..., k - 1 in turn. */
  function Sweep(k: nat): seq<nat> {
    if k == 0 then [] else Sweep(k - 1) + [(k - 1) * PAGE_SIZE]
  }

  ghost predicate CountsUp(log: seq<nat>, k: nat) {
    |log| == k && forall i :: 0 <= i < k ==> log[i] == i
  }

  lemma NotInCount(log: seq<nat>, k: nat, n: nat)
    requires CountsUp(log, k)
    ensures !Recent(k, log, n)
  {
  }

  lemma LogsSnoc(run: seq<nat>, logical: nat, frames: nat, slots: nat)
    ensures LogsOf(run + [logical], frames, slots) == Logged(LogsOf(run, frames, slots), PageOf(logical), frames, slots)
  {
    assert (run + [logical])[..|run|] == run;
  }

  lemma PageStart(p: nat)
    requires p < PAGES
    ensures PageOf(p * PAGE_SIZE) == p
  {
  }

  lemma SweepStep(l: Logs, k: nat, frames: nat, slots: nat)
    requires CountsUp(l.faults, k) && CountsUp(l.misses, k)
    ensures var l' := Logged(l, k, frames, slots); CountsUp(l'.faults, k + 1) && CountsUp(l'.misses, k + 1)
  {
    NotInCount(l.faults, k, frames);
    NotInCount(l.misses, k, slots);
  }

  lemma {:induction false} SweepLogs(k: nat, frames: nat, slots: nat)
    requires k <= frames && k <= PAGES
    ensures |Sweep(k)| == k
    ensures CountsUp(LogsOf(Sweep(k), frames, slots).faults, k)
    ensures CountsUp(LogsOf(Sweep(k), frames, slots).misses, k)
  {
    if k > 0 {
      SweepLogs(k - 1, frames, slots);
      var l := LogsOf(Sweep(k - 1), frames, slots);
      SweepStep(l, k - 1, frames, slots);
      PageStart(k - 1);
      LogsSnoc(Sweep(k - 1), (k - 1) * PAGE_SIZE, frames, slots);
    }
  }

  /** Fill all frames, touch page 0 again, then evict it. */
  function Trap(frames: nat): seq<nat> {
    Sweep(frames) + [0] + [frames * PAGE_SIZE]
  }

  /** With fewer frames than pages and any other TLB size, page 0 is then stale. */
  lemma {:induction false} TrapIsStale(frames: nat, slots: nat)
    requires 0 < frames < PAGES && 1 < slots && slots != frames
    ensures Stale(LogsOf(Trap(frames), frames, slots), 0, frames, slots)
    ensures |Trap(frames)| == frames + 2
    ensures var l := LogsOf(Trap(frames), frames, slots); CountsUp(l.faults, frames + 1)
  {
    var run := Sweep(frames);
    SweepLogs(frames, frames, slots);
    var l0 := LogsOf(run, frames, slots);
    LogsSnoc(run, 0, frames, slots);
    PageStart(0);
    PageStart(frames);
    var l1 := LogsOf(run + [0], frames, slots);
    assert InWindow(0, l0.faults, frames) && Recent(0, l0.faults, frames);
    assert l1.faults == l0.faults;
    LogsSnoc(run + [0], frames * PAGE_SIZE, frames, slots);
    var l2 := LogsOf(Trap(frames), frames, slots);
    assert !Recent(frames, l1.misses, slots) && !Recent(frames, l1.faults, frames);
    assert l2 == Logs(l1.faults + [frames], l1.misses + [frames]);
    var k := if frames < slots then 0 else |l1.misses| - 1;
    assert frames < slots ==> InWindow(0, l0.misses, slots) && Recent(0, l0.misses, slots);
    assert InWindow(k, l2.misses, slots) && l2.misses[k] == 0;
  }

  // ----- the two together -----

  /** Among the last `frames` faults there is one for every frame. */
  lemma WindowCovers(n: nat, frames: nat, f: nat) returns (k: nat)
    requires f < frames <= n
    ensures n - frames <= k < n && k % frames == f
  {
    var r, m := n % frames, n / frames;
    assert n == frames * m + r;
    if f < r {
      k := n - r + f;
      ModUnique(k, frames, m, f);
    } else {
      k := n - r - frames + f;
      assert frames * (m - 1) == frames * m - frames;
      ModUnique(k, frames, m - 1, f);
    }
  }

  /** A page that was evicted has been followed by `frames` other faults at least. */
  lemma {:induction false} StaleMeansFull(run: seq<nat>, frames: nat, slots: nat, p: nat)
    requires Stale(LogsOf(run, frames, slots), p, frames, slots)
    ensures frames < |LogsOf(run, frames, slots).faults|
  {
    if |LogsOf(run, frames, slots).faults| <= frames { FewFaultsNeverStale(run, frames, slots, p); }
  }

  /** What is in a frame when all are full: some page among the last faults. */
  lemma {:induction false} FrameHolds(c: Core, log: seq<nat>, store: seq<Byte>, frames: nat, f: nat, offset: nat) returns (q: nat)
    requires CoreInv(c, log, store, frames) && f < frames <= |log| && offset < PAGE_SIZE
    ensures q < PAGES && Recent(q, log, frames)
    ensures c.memory[f * PAGE_SIZE + offset] == store[q * PAGE_SIZE + offset]
  {
    var k := WindowCovers(|log|, frames, f);
    assert InWindow(k, log, frames) && Placed(c, log, store, frames, k);
    q := log[k];
    assert PageAt(c.memory, f)[offset] == PageAt(store, q)[offset];
  }

  lemma HitReadsFrame(v: Vm, logical: nat, store: seq<Byte>, frames: nat, slots: nat, f: nat)
    requires Sized(v, frames, slots) && |store| == PAGES * PAGE_SIZE && Lookup(v.tlb, PageOf(logical)) == Some(f)
    ensures var (v', physical) := Translated(v, logical, store, frames, slots);
      v'.core == v.core && physical == f * PAGE_SIZE + OffsetOf(logical)
  {
  }

  /** A stale hit reads the byte at the same offset of another page. */
  lemma {:induction false} StaleReadsOther(run: seq<nat>, logical: nat, store: seq<Byte>, frames: nat, slots: nat) returns (q: nat)
    requires 0 < frames && 0 < slots && |store| == PAGES * PAGE_SIZE && NoWrap(run, frames, slots)
    requires Stale(LogsOf(run, frames, slots), PageOf(logical), frames, slots)
    ensures q < PAGES && q != PageOf(logical)
    ensures Fetched(run, logical, store, frames, slots) == Some(store[q * PAGE_SIZE + OffsetOf(logical)])
  {
    var v, l, p := After(run, store, frames, slots), LogsOf(run, frames, slots), PageOf(logical);
    RunKeepsInv(run, store, frames, slots);
    StaleMeansFull(run, frames, slots, p);
    LookupFinds(v, l.misses, slots, p);
    q := FrameHolds(v.core, l.faults, store, frames, v.core.table[p], OffsetOf(logical));
    HitReadsFrame(v, logical, store, frames, slots, v.core.table[p]);
  }

  /** After the trap the next access to page 0 reads a byte of another page. */
  lemma {:induction false} TrapReadsWrong(frames: nat, slots: nat, store: seq<Byte>) returns (q: nat)
    requires 0 < frames < PAGES && 1 < slots && slots != frames && |store| == PAGES * PAGE_SIZE
    ensures 0 < q < PAGES && Fetched(Trap(frames), 0, store, frames, slots) == Some(store[q * PAGE_SIZE])
  {
    TrapIsStale(frames, slots);
    PageStart(0);
    q := StaleReadsOther(Trap(frames), 0, store, frames, slots);
  }

  /** Whatever is in the backing store, the access after `run` reads the byte at its address mod 2^16. */
  ghost predicate ReadsStore(run: seq<nat>, logical: nat, frames: nat, slots: nat)
    requires 0 < frames && 0 < slots
  {
    forall store: seq<Byte> {:trigger Fetched(run, logical, store, frames, slots)} :: |store| == PAGES * PAGE_SIZE ==>
      Fetched(run, logical, store, frames, slots) == Some(store[logical % (PAGES * PAGE_SIZE)])
  }

  function MarkedAt(i: nat): (store: seq<Byte>)
    ensures |store| == PAGES * PAGE_SIZE && forall k :: 0 <= k < |store| ==> store[k] == if k == i then 1 else 0
  {
    seq(PAGES * PAGE_SIZE, k => if k == i then 1 else 0)
  }

  lemma OtherPageOtherByte(logical: nat, q: nat)
    requires q < PAGES && q != PageOf(logical)
    ensures q * PAGE_SIZE + OffsetOf(logical) < PAGES * PAGE_SIZE
    ensures q * PAGE_SIZE + OffsetOf(logical) != logical % (PAGES * PAGE_SIZE)
  {
    AddressSplit(logical);
  }

  /** An access reads the backing store exactly when it is no stale hit. */
  lemma {:induction false} ReadsStoreIff(run: seq<nat>, logical: nat, frames: nat, slots: nat)
    requires 0 < frames && 0 < slots && NoWrap(run + [logical], frames, slots)
    ensures ReadsStore(run, logical, frames, slots) <==> !Stale(LogsOf(run, frames, slots), PageOf(logical), frames, slots)
  {
    LogsSnoc(run, logical, frames, slots);
    if Stale(LogsOf(run, frames, slots), PageOf(logical), frames, slots) {
      var store := MarkedAt(logical % (PAGES * PAGE_SIZE));
      var q := StaleReadsOther(run, logical, store, frames, slots);
      OtherPageOtherByte(logical, q);
      assert Fetched(run, logical, store, frames, slots) == Some(0);
    } else {
      forall store: seq<Byte> | |store| == PAGES * PAGE_SIZE
        ensures Fetched(run, logical, store, frames, slots) == Some(store[logical % (PAGES * PAGE_SIZE)])
      {
        FreshReadsStore(run, logical, store, frames, slots);
      }
    }
  }

  /** Every access reads the backing store, as long as the frame counter does not wrap around. */
  ghost predicate Transparent(frames: nat, slots: nat)
    requires 0 < frames && 0 < slots
  {
    forall run: seq<nat>, logical: nat {:trigger ReadsStore(run, logical, frames, slots)} ::
      NoWrap(run + [logical], frames, slots) ==> ReadsStore(run, logical, frames, slots)
  }

  /** The manager is transparent exactly when there is a frame for every page, or the TLB has one slot,
    * or as many slots as there are frames. Evicting a page without its TLB entry shows in all other cases. */
  lemma {:induction false} TransparentIff(frames: nat, slots: nat)
    requires 0 < frames && 0 < slots
    ensures Transparent(frames, slots) <==> PAGES <= frames || slots == 1 || slots == frames
  {
    if PAGES <= frames || slots == 1 || slots == frames {
      forall run: seq<nat>, logical: nat | NoWrap(run + [logical], frames, slots)
        ensures ReadsStore(run, logical, frames, slots)
      {
        SafeSizesNeverStale(run, PageOf(logical), frames, slots);
        ReadsStoreIff(run, logical, frames, slots);
      }
    } else {
      TrapIsStale(frames, slots);
      PageStart(0);
      LogsSnoc(Trap(frames), 0, frames, slots);
      ReadsStoreIff(Trap(frames), 0, frames, slots);
    }
  }

  /** With a frame for every page every access of every run, however long, reads the backing store. */
  lemma {:induction false} EnoughFrames(run: seq<nat>, logical: nat, frames: nat, slots: nat)
    requires PAGES <= frames && 0 < slots
    ensures ReadsStore(run, logical, frames, slots)
  {
    AtMostAllPages(PagesOf(run + [logical]));
    forall store: seq<Byte> | |store| == PAGES * PAGE_SIZE
      ensures Fetched(run, logical, store, frames, slots) == Some(store[logical % (PAGES * PAGE_SIZE)])
    {
      FewPagesReadStore(run, logical, store, frames, slots);
    }
  }
}
