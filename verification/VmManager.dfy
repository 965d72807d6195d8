/** The virtual memory manager with its arrays, updated in place. */
module VmManager {
  import opened Options
  import opened Paging

  class Manager {
    const frames: nat
    const slots: nat
    const store: seq<Byte>              // the backing storage file
    const tlb: array<Entry>
    const memory: array<Byte>
    const pageTable: array<nat>
    const pageValid: array<bool>
    var nextAvailableFrame: nat
    var nextAvailableTlb: nat
    var totalCnt: nat
    var pageFaultCnt: nat
    var tlbMissCnt: nat

    ghost function CoreState(): Core
      reads this, memory, pageTable, pageValid
    {
      Core(pageTable[..], pageValid[..], memory[..], nextAvailableFrame, pageFaultCnt)
    }

    ghost function State(): Vm
      reads this, tlb, memory, pageTable, pageValid
    {
      Vm(CoreState(), tlb[..], nextAvailableTlb, tlbMissCnt, totalCnt)
    }

    ghost predicate Valid()
      reads this, tlb, memory, pageTable, pageValid
    {
      && 0 < frames && 0 < slots && |store| == PAGES * PAGE_SIZE
      && tlb.Length == slots && memory.Length == frames * PAGE_SIZE
      && pageTable.Length == PAGES && pageValid.Length == PAGES
    }

    /** init */
    constructor (frames: nat, slots: nat, store: seq<Byte>)
      requires 0 < frames && 0 < slots && |store| == PAGES * PAGE_SIZE
      ensures Valid() && this.frames == frames && this.slots == slots && this.store == store
      ensures State() == Vm(Core(seq(PAGES, _ => 0), seq(PAGES, _ => false), seq(frames * PAGE_SIZE, _ => 0), 0, 0),
                            seq(slots, _ => Entry(false, 0, 0)), 0, 0, 0)
      ensures fresh(tlb) && fresh(memory) && fresh(pageTable) && fresh(pageValid)
    {
      this.frames, this.slots, this.store := frames, slots, store;
      tlb := new Entry[slots](_ => Entry(false, 0, 0));
      memory := new Byte[frames * PAGE_SIZE](_ => 0);
      pageTable := new nat[PAGES](_ => 0);
      pageValid := new bool[PAGES](_ => false);
      nextAvailableFrame, nextAvailableTlb, totalCnt, pageFaultCnt, tlbMissCnt := 0, 0, 0, 0, 0;
      new;
      assert tlb[..] == seq(slots, _ => Entry(false, 0, 0));
      assert memory[..] == seq(frames * PAGE_SIZE, _ => 0);
      assert pageTable[..] == seq(PAGES, _ => 0) && pageValid[..] == seq(PAGES, _ => false);
    }

    /** select_victim_frame */
    method SelectVictimFrame() returns (frame: nat)
      requires Valid()
      modifies this`nextAvailableFrame, pageValid
      ensures Valid() && (CoreState(), frame) == Victim(old(CoreState()), frames)
    {
      if nextAvailableFrame < frames {
        frame := nextAvailableFrame;
        nextAvailableFrame := Tick(nextAvailableFrame);
        return;
      }
      frame := nextAvailableFrame % frames;
      ghost var c := CoreState();
      nextAvailableFrame := Tick(nextAvailableFrame);
      for i := 0 to PAGES
        invariant CoreState() == c.(nextFrame := Tick(c.nextFrame))
        invariant FirstMapped(c, frame, 0) == FirstMapped(c, frame, i)
      {
        if pageValid[i] && pageTable[i] == frame {
          pageValid[i] := false;
          break;
        }
      }
    }

    /** handle_page_fault: the page is read from the backing storage into the victim's frame. */
    method HandlePageFault(page: nat)
      requires Valid() && page < PAGES
      modifies this`nextAvailableFrame, this`pageFaultCnt, pageValid, pageTable, memory
      ensures Valid() && CoreState() == Faulted(old(CoreState()), page, store, frames)
    {
      var frame := SelectVictimFrame();
      pageTable[page] := frame;
      forall i | 0 <= i < PAGE_SIZE {
        memory[frame * PAGE_SIZE + i] := store[page * PAGE_SIZE + i];
      }
      assert memory[..] == Loaded(old(memory[..]), frame, store, page);
      pageValid[page] := true;
      pageFaultCnt := Tick(pageFaultCnt);
    }

    /** check_TLB */
    method CheckTlb(page: nat) returns (frame: Option<nat>)
      requires Valid()
      ensures frame == Lookup(tlb[..], page)
    {
      assert tlb[0..] == tlb[..];
      for i := 0 to slots
        invariant Lookup(tlb[..], page) == Lookup(tlb[i..], page)
      {
        if tlb[i].valid && tlb[i].page == page {
          return Some(tlb[i].frame);
        }
        assert tlb[i..][1..] == tlb[i + 1..];
      }
      return None;
    }

    /** update_TLB */
    method UpdateTlb(page: nat, frame: nat)
      requires Valid()
      modifies this`nextAvailableTlb, tlb
      ensures Valid() && nextAvailableTlb == (old(nextAvailableTlb) + 1) % slots
      ensures tlb[..] == old(tlb[..])[old(nextAvailableTlb) % slots := Entry(true, page, frame)]
    {
      var victim := nextAvailableTlb % slots;
      nextAvailableTlb := (nextAvailableTlb + 1) % slots;
      tlb[victim] := Entry(true, page, frame);
    }

    /** translate_address */
    method TranslateAddress(logical: nat) returns (physical: nat)
      requires Valid()
      modifies this, tlb, pageValid, pageTable, memory
      ensures Valid() && (State(), physical) == Translated(old(State()), logical, store, frames, slots)
    {
      totalCnt := Tick(totalCnt);
      var page, offset := PageOf(logical), OffsetOf(logical);
      var hit := CheckTlb(page);
      var frame: nat;
      if hit == None {
        tlbMissCnt := Tick(tlbMissCnt);
        if !pageValid[page] {
          HandlePageFault(page);
        }
        frame := pageTable[page];
        UpdateTlb(page, frame);
      } else {
        frame := hit.value;
      }
      physical := frame * PAGE_SIZE + offset;
    }

    /** access_memory */
    method AccessMemory(physical: nat) returns (value: Byte)
      requires Valid() && physical < memory.Length
      ensures value == State().core.memory[physical]
    {
      value := memory[physical];
    }
  }
}
