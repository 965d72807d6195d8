/** The virtual memory manager on values: page table, FIFO frames, FIFO TLB, backing store.
  * The number of frames and the size of the TLB are parameters; a page is 256 bytes and there are
  * 256 pages. */
module Paging {
  import opened Options

  const PAGES: nat := 256
  const PAGE_SIZE: nat := 256
  const WRAP: nat := 0x1_0000_0000   // 32-bit counters

  type Byte = x: int | -128 <= x < 128

  /** The upper 16 bits of a logical address are not used. */
  function PageOf(logical: nat): (p: nat)
    ensures p < PAGES
  {
    logical / PAGE_SIZE % PAGES
  }

  function OffsetOf(logical: nat): (o: nat)
    ensures o < PAGE_SIZE
  {
    logical % PAGE_SIZE
  }

  function Tick(counter: nat): nat {
    (counter + 1) % WRAP
  }

  // ----- page table and frames -----

  datatype Core = Core(table: seq<nat>, resident: seq<bool>, memory: seq<Byte>, nextFrame: nat, faults: nat)

  ghost predicate CoreSized(c: Core, frames: nat) {
    && 0 < frames && |c.table| == |c.resident| == PAGES && |c.memory| == frames * PAGE_SIZE
  }

  /** The first resident page that the table maps to `frame`, from page `p` on; PAGES if there is none. */
  function FirstMapped(c: Core, frame: nat, p: nat): (r: nat)
    requires |c.table| == |c.resident| && p <= |c.table|
    ensures p <= r <= |c.table| && (r < |c.table| ==> c.resident[r] && c.table[r] == frame)
    ensures forall q :: p <= q < r ==> !(c.resident[q] && c.table[q] == frame)
    decreases |c.table| - p
  {
    if p == |c.table| || (c.resident[p] && c.table[p] == frame) then p else FirstMapped(c, frame, p + 1)
  }

  /** select_victim_frame: the frame, and the state with the page that was in it evicted. */
  function Victim(c: Core, frames: nat): (r: (Core, nat))
    requires 0 < frames && |c.table| == |c.resident|
    ensures r.1 < frames
  {
    if c.nextFrame < frames then (c.(nextFrame := Tick(c.nextFrame)), c.nextFrame)
    else
      var victim := c.nextFrame % frames;
      var page := FirstMapped(c, victim, 0);
      (c.(nextFrame := Tick(c.nextFrame),
          resident := if page < |c.resident| then c.resident[page := false] else c.resident), victim)
  }

  function Loaded(memory: seq<Byte>, frame: nat, store: seq<Byte>, page: nat): (r: seq<Byte>)
    requires (frame + 1) * PAGE_SIZE <= |memory| && (page + 1) * PAGE_SIZE <= |store|
    ensures |r| == |memory|
    ensures forall i :: 0 <= i < |memory| ==> (r[i] ==
      if frame * PAGE_SIZE <= i < (frame + 1) * PAGE_SIZE then store[i - frame * PAGE_SIZE + page * PAGE_SIZE] else memory[i])
  {
    memory[..frame * PAGE_SIZE] + store[page * PAGE_SIZE..(page + 1) * PAGE_SIZE] + memory[(frame + 1) * PAGE_SIZE..]
  }

  /** handle_page_fault */
  ghost function Faulted(c: Core, page: nat, store: seq<Byte>, frames: nat): (r: Core)
    requires CoreSized(c, frames) && page < PAGES && |store| == PAGES * PAGE_SIZE
    ensures CoreSized(r, frames)
  {
    var (v, frame) := Victim(c, frames);
    v.(table := v.table[page := frame], memory := Loaded(v.memory, frame, store, page),
       resident := v.resident[page := true], faults := Tick(v.faults))
  }

  /** Brings the page into a frame if it is in none. */
  ghost function Present(c: Core, page: nat, store: seq<Byte>, frames: nat): (r: Core)
    requires CoreSized(c, frames) && page < PAGES && |store| == PAGES * PAGE_SIZE
    ensures CoreSized(r, frames)
  {
    if c.resident[page] then c else Faulted(c, page, store, frames)
  }

  // ----- TLB -----

  datatype Entry = Entry(valid: bool, page: nat, frame: nat)

  datatype Vm = Vm(core: Core, tlb: seq<Entry>, nextTlb: nat, misses: nat, total: nat)

  ghost predicate Sized(v: Vm, frames: nat, slots: nat) {
    CoreSized(v.core, frames) && 0 < slots == |v.tlb|
  }

  /** check_TLB: the frame of the first valid entry for the page. */
  function Lookup(tlb: seq<Entry>, page: nat): (r: Option<nat>)
    ensures r.Some? ==> exists i :: 0 <= i < |tlb| && tlb[i].valid && tlb[i].page == page && tlb[i].frame == r.value
    ensures r.None? ==> forall i :: 0 <= i < |tlb| ==> !(tlb[i].valid && tlb[i].page == page)
  {
    if tlb == [] then None
    else if tlb[0].valid && tlb[0].page == page then Some(tlb[0].frame)
    else Lookup(tlb[1..], page)
  }

  /** translate_address: the new state and the physical address. */
  ghost function Translated(v: Vm, logical: nat, store: seq<Byte>, frames: nat, slots: nat): (r: (Vm, nat))
    requires Sized(v, frames, slots) && |store| == PAGES * PAGE_SIZE
    ensures Sized(r.0, frames, slots)
  {
    var page, offset := PageOf(logical), OffsetOf(logical);
    var w := v.(total := Tick(v.total));
    match Lookup(v.tlb, page)
    case Some(frame) => (w, frame * PAGE_SIZE + offset)
    case None =>
      var c := Present(v.core, page, store, frames);
      (Vm(c, v.tlb[v.nextTlb % slots := Entry(true, page, c.table[page])],
          (v.nextTlb + 1) % slots, Tick(v.misses), w.total),
       c.table[page] * PAGE_SIZE + offset)
  }

  /** The same access by a manager that has no TLB. */
  ghost function TranslatedPlain(c: Core, logical: nat, store: seq<Byte>, frames: nat): (r: (Core, nat))
    requires CoreSized(c, frames) && |store| == PAGES * PAGE_SIZE
    ensures CoreSized(r.0, frames)
  {
    var c' := Present(c, PageOf(logical), store, frames);
    (c', c'.table[PageOf(logical)] * PAGE_SIZE + OffsetOf(logical))
  }
}
