/** Both the frames and the TLB are queues: what they hold is described by the pages of the last
  * faults and the pages of the last TLB misses. */
module PagingInvariant {
  import opened Options
  import opened Modulo
  import opened Paging

  // ----- the last n entries of a log -----

  ghost predicate InWindow(k: int, log: seq<nat>, n: nat) {
    0 <= k < |log| && |log| - n <= k
  }

  ghost predicate Recent(p: nat, log: seq<nat>, n: nat) {
    exists k :: InWindow(k, log, n) && log[k] == p
  }

  ghost predicate DistinctWindow(log: seq<nat>, n: nat) {
    forall i, k :: InWindow(i, log, n) && InWindow(k, log, n) && i != k ==> log[i] != log[k]
  }

  lemma RecentSnoc(p: nat, log: seq<nat>, q: nat, n: nat)
    requires 0 < n
    ensures Recent(p, log + [q], n) <==> p == q || Recent(p, log, n - 1)
  {
    var log' := log + [q];
    if Recent(p, log', n) {
      var k :| InWindow(k, log', n) && log'[k] == p;
      assert k < |log| ==> InWindow(k, log, n - 1) && log[k] == p;
    }
    if p == q { assert InWindow(|log|, log', n) && log'[|log|] == p; }
    if Recent(p, log, n - 1) {
      var k :| InWindow(k, log, n - 1) && log[k] == p;
      assert InWindow(k, log', n) && log'[k] == p;
    }
  }

  // ----- page table and frames -----

  ghost function PageAt(bytes: seq<Byte>, p: nat): (r: seq<Byte>)
    requires (p + 1) * PAGE_SIZE <= |bytes|
    ensures |r| == PAGE_SIZE
  {
    bytes[p * PAGE_SIZE..(p + 1) * PAGE_SIZE]
  }

  /** The k-th fault brought page log[k] into frame k % frames, where it still is. */
  ghost predicate Placed(c: Core, log: seq<nat>, store: seq<Byte>, frames: nat, k: int)
    requires CoreSized(c, frames) && |store| == PAGES * PAGE_SIZE && 0 <= k < |log|
  {
    && log[k] < PAGES && c.resident[log[k]] && c.table[log[k]] == k % frames
    && k % frames < frames
    && PageAt(c.memory, k % frames) == PageAt(store, log[k])
  }

  /** `log` lists the pages of all faults so far. */
  ghost predicate CoreInv(c: Core, log: seq<nat>, store: seq<Byte>, frames: nat) {
    && CoreSized(c, frames) && |store| == PAGES * PAGE_SIZE
    && |log| <= WRAP && c.nextFrame == c.faults == |log| % WRAP
    && (forall k :: InWindow(k, log, frames) ==> Placed(c, log, store, frames, k))
    && (forall p: nat :: p < PAGES && c.resident[p] ==> Recent(p, log, frames))
    && (forall p :: 0 <= p < PAGES ==> c.table[p] < frames)
  }

  /** The resident pages are exactly those of the last `frames` faults, and they are pairwise distinct. */
  lemma ResidentPages(c: Core, log: seq<nat>, store: seq<Byte>, frames: nat)
    requires CoreInv(c, log, store, frames)
    ensures forall p: nat :: p < PAGES ==> (c.resident[p] <==> Recent(p, log, frames))
    ensures DistinctWindow(log, frames)
  {
    forall i, k | InWindow(i, log, frames) && InWindow(k, log, frames) && i < k
      ensures log[i] != log[k]
    {
      ModDistinct(i, k, frames);
      assert Placed(c, log, store, frames, i) && Placed(c, log, store, frames, k);
    }
  }

  /** Two resident pages are never in the same frame. */
  lemma FramesInjective(c: Core, log: seq<nat>, store: seq<Byte>, frames: nat, p: nat, q: nat)
    requires CoreInv(c, log, store, frames) && p < PAGES && q < PAGES && c.resident[p] && c.resident[q]
    requires c.table[p] == c.table[q]
    ensures p == q
  {
    var i :| InWindow(i, log, frames) && log[i] == p;
    var k :| InWindow(k, log, frames) && log[k] == q;
    if i < k { ModDistinct(i, k, frames); }
    if k < i { ModDistinct(k, i, frames); }
  }

  /** A resident page is where the table says, with the contents of the backing store. */
  lemma ResidentContents(c: Core, log: seq<nat>, store: seq<Byte>, frames: nat, p: nat, offset: nat)
    requires CoreInv(c, log, store, frames) && p < PAGES && c.resident[p] && offset < PAGE_SIZE
    ensures c.table[p] < frames
    ensures c.memory[c.table[p] * PAGE_SIZE + offset] == store[p * PAGE_SIZE + offset]
  {
    var k :| InWindow(k, log, frames) && log[k] == p;
    assert Placed(c, log, store, frames, k);
    assert PageAt(c.memory, k % frames)[offset] == PageAt(store, p)[offset];
  }

  lemma OnlyMapped(c: Core, log: seq<nat>, store: seq<Byte>, frames: nat, k: nat)
    requires CoreInv(c, log, store, frames) && InWindow(k, log, frames)
    ensures FirstMapped(c, k % frames, 0) == log[k]
  {
    assert Placed(c, log, store, frames, k);
    var f := FirstMapped(c, k % frames, 0);
    assert f <= log[k];
    FramesInjective(c, log, store, frames, f, log[k]);
  }

  lemma VictimFrame(c: Core, log: seq<nat>, store: seq<Byte>, frames: nat)
    requires CoreInv(c, log, store, frames) && |log| < WRAP
    ensures c.nextFrame == |log| && |log| % frames < frames
    ensures Victim(c, frames).1 == |log| % frames
  {
    if |log| < frames { ModUnique(|log|, frames, 0, |log|); }
  }

  lemma VictimPage(c: Core, log: seq<nat>, store: seq<Byte>, frames: nat)
    requires CoreInv(c, log, store, frames) && frames <= |log| < WRAP
    ensures FirstMapped(c, |log| % frames, 0) == log[|log| - frames] < PAGES
  {
    var o := |log| - frames;
    ModPeriod(o, frames);
    OnlyMapped(c, log, store, frames, o);
    assert Placed(c, log, store, frames, o);
  }

  /** The victim of the fault after `log` is the page that was loaded `frames` faults ago, and it is
    * the only page in that frame: stopping at the first match is enough. */
  lemma VictimIsOldest(c: Core, log: seq<nat>, store: seq<Byte>, frames: nat)
    requires CoreInv(c, log, store, frames) && |log| < WRAP
    ensures var (v, frame) := Victim(c, frames);
      && frame == |log| % frames && frame < frames
      && v.nextFrame == (|log| + 1) % WRAP
      && forall p :: 0 <= p < PAGES ==>
           (v.resident[p] <==> c.resident[p] && !(frames <= |log| && p == log[|log| - frames]))
  {
    VictimFrame(c, log, store, frames);
    if frames <= |log| { VictimPage(c, log, store, frames); }
  }

  lemma FaultKeepsOthers(c: Core, log: seq<nat>, page: nat, store: seq<Byte>, frames: nat, k: int)
    requires CoreInv(c, log, store, frames) && |log| < WRAP && page < PAGES && !c.resident[page]
    requires InWindow(k, log, frames - 1)
    ensures Placed(Faulted(c, page, store, frames), log + [page], store, frames, k)
  {
    var c' := Faulted(c, page, store, frames);
    VictimIsOldest(c, log, store, frames);
    assert InWindow(k, log, frames) && Placed(c, log, store, frames, k);
    ModDistinct(k, |log|, frames);
    if frames <= |log| {
      ResidentPages(c, log, store, frames);
      assert InWindow(|log| - frames, log, frames);
    }
    assert PageAt(c'.memory, k % frames) == PageAt(c.memory, k % frames);
  }

  /** A page fault adds its page to the log. */
  lemma FaultKeepsInv(c: Core, log: seq<nat>, page: nat, store: seq<Byte>, frames: nat)
    requires CoreInv(c, log, store, frames) && |log| < WRAP && page < PAGES && !c.resident[page]
    ensures CoreInv(Faulted(c, page, store, frames), log + [page], store, frames)
  {
    var c', log' := Faulted(c, page, store, frames), log + [page];
    VictimIsOldest(c, log, store, frames);
    forall k | InWindow(k, log', frames)
      ensures Placed(c', log', store, frames, k)
    {
      if k < |log| {
        FaultKeepsOthers(c, log, page, store, frames, k);
      } else {
        assert PageAt(c'.memory, k % frames) == PageAt(store, page);
      }
    }
    forall p: nat | p < PAGES && c'.resident[p]
      ensures Recent(p, log', frames)
    {
      RecentSnoc(p, log, page, frames);
      if p != page {
        var k :| InWindow(k, log, frames) && log[k] == p;
        assert InWindow(k, log, frames - 1);
      }
    }
  }

  /** The bound of 2^32 faults is sharp: the fault after that finds the counter back at 0, evicts
    * nothing, and leaves two resident pages in frame 0. */
  lemma WrappedCounterSharesFrame(c: Core, log: seq<nat>, page: nat, store: seq<Byte>, frames: nat)
    requires CoreInv(c, log, store, frames) && |log| == WRAP && frames < WRAP
    requires page < PAGES && !c.resident[page]
    ensures var c' := Faulted(c, page, store, frames);
      exists q: nat :: q < PAGES && q != page && c'.resident[q] && c'.resident[page] && c'.table[q] == c'.table[page] == 0
  {
    var r, n := WRAP % frames, WRAP / frames;
    var k := if r == 0 then WRAP - frames else WRAP - r;
    assert WRAP == frames * n + r;
    assert k % frames == 0 by {
      if r == 0 {
        assert frames * (n - 1) == frames * n - frames;
        ModUnique(k, frames, n - 1, 0);
      } else {
        ModUnique(k, frames, n, 0);
      }
    }
    assert InWindow(k, log, frames) && Placed(c, log, store, frames, k);
    var c', q := Faulted(c, page, store, frames), log[k];
    assert c.nextFrame == 0 && Victim(c, frames).1 == 0;
    assert q != page && c'.resident[q] && c'.table[q] == 0;
  }

  // ----- TLB -----

  /** `misses` lists the pages of all TLB misses so far. The frame of an entry is the one the page
    * table records for its page, even when that page has been evicted since. */
  ghost predicate TlbInv(v: Vm, misses: seq<nat>, slots: nat) {
    && 0 < slots == |v.tlb| && |v.core.table| == PAGES && v.nextTlb == |misses| % slots
    && (forall k :: InWindow(k, misses, slots) ==> Cached(v, misses, slots, k))
    && (forall s :: 0 <= s < slots && v.tlb[s].valid ==> FilledBy(misses, slots, s))
    && DistinctWindow(misses, slots)
  }

  ghost predicate Cached(v: Vm, misses: seq<nat>, slots: nat, k: int)
    requires 0 < slots == |v.tlb| && |v.core.table| == PAGES && 0 <= k < |misses|
  {
    misses[k] < PAGES && k % slots < slots && v.tlb[k % slots] == Entry(true, misses[k], v.core.table[misses[k]])
  }

  ghost predicate FilledBy(misses: seq<nat>, slots: nat, s: nat)
    requires 0 < slots
  {
    exists k :: InWindow(k, misses, slots) && k % slots == s
  }

  /** The TLB holds exactly the pages of the last `slots` misses, with the frames of the page table. */
  lemma LookupFinds(v: Vm, misses: seq<nat>, slots: nat, p: nat)
    requires TlbInv(v, misses, slots) && p < PAGES
    ensures Lookup(v.tlb, p) == if Recent(p, misses, slots) then Some(v.core.table[p]) else None
  {
    var r := Lookup(v.tlb, p);
    if Recent(p, misses, slots) {
      var k :| InWindow(k, misses, slots) && misses[k] == p;
      assert Cached(v, misses, slots, k);
    }
    if r.Some? {
      var s :| 0 <= s < slots && v.tlb[s].valid && v.tlb[s].page == p && v.tlb[s].frame == r.value;
      assert FilledBy(misses, slots, s);
      var k :| InWindow(k, misses, slots) && k % slots == s;
      assert Cached(v, misses, slots, k);
    }
  }

  /** Valid entries have distinct pages. */
  lemma EntriesDistinct(v: Vm, misses: seq<nat>, slots: nat, s: nat, s': nat)
    requires TlbInv(v, misses, slots) && s < slots && s' < slots && v.tlb[s].valid && v.tlb[s'].valid
    ensures v.tlb[s].frame == v.core.table[v.tlb[s].page]
    ensures v.tlb[s].page == v.tlb[s'].page ==> s == s'
  {
    assert FilledBy(misses, slots, s) && FilledBy(misses, slots, s');
    var k :| InWindow(k, misses, slots) && k % slots == s;
    var k' :| InWindow(k', misses, slots) && k' % slots == s';
    assert Cached(v, misses, slots, k) && Cached(v, misses, slots, k');
  }

  /** A miss puts its page into the slot of the oldest entry. */
  lemma MissKeepsTlbInv(v: Vm, misses: seq<nat>, slots: nat, p: nat, v': Vm)
    requires TlbInv(v, misses, slots) && p < PAGES && !Recent(p, misses, slots)
    requires |v'.core.table| == PAGES && forall q :: 0 <= q < PAGES && q != p ==> v'.core.table[q] == v.core.table[q]
    requires v'.tlb == v.tlb[v.nextTlb % slots := Entry(true, p, v'.core.table[p])]
    requires v'.nextTlb == (v.nextTlb + 1) % slots
    ensures TlbInv(v', misses + [p], slots)
  {
    var n, misses' := |misses|, misses + [p];
    ModNext(n, slots);
    ModUnique(n % slots, slots, 0, n % slots);
    forall k | InWindow(k, misses', slots)
      ensures Cached(v', misses', slots, k)
    {
      if k < n {
        assert InWindow(k, misses, slots) && Cached(v, misses, slots, k);
        ModDistinct(k, n, slots);
      }
    }
    forall s | 0 <= s < slots && v'.tlb[s].valid
      ensures FilledBy(misses', slots, s)
    {
      if s == n % slots {
        assert InWindow(n, misses', slots);
      } else {
        assert FilledBy(misses, slots, s);
        var k :| InWindow(k, misses, slots) && k % slots == s;
        if k == n - slots { ModPeriod(k, slots); }
        assert InWindow(k, misses', slots);
      }
    }
    forall i, k | InWindow(i, misses', slots) && InWindow(k, misses', slots) && i != k
      ensures misses'[i] != misses'[k]
    {
      assert i < n ==> InWindow(i, misses, slots);
      assert k < n ==> InWindow(k, misses, slots);
    }
  }
}
