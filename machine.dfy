/**
 * The simulator as part2.c runs it: global arrays updated in place and counters bumped
 * by the operations, each method proved against the function of module Translation
 * that gives its effect on the abstract state.
 */
module Machine {
  import opened Types
  import opened Address
  import opened Tables
  import opened Translation
  import opened TranslationProperties

  class VirtualMemory {
    /** The replacement function chosen on the command line. */
    const policy: Policy
    /** `tlb`, a circular array of 16 slots. */
    const tlb: array<TlbEntry>
    /** `page_table`, indexed by logical page. */
    const pageTable: array<PageTableEntry>
    /** `main_memory`: 256 frames of 1024 bytes. */
    const mainMemory: array<int8>
    /** `tlbindex`: inserts into the TLB so far. */
    var tlbIndex: int
    /** `fifo_index`: the FIFO policy's counter. */
    var fifoIndex: int
    /** `free_page`: the next frame never handed out. */
    var freePage: int
    /** The statistics of `main`. */
    var totalAddresses: int
    var tlbHits: int
    var pageFaults: int

    ghost predicate Shape()
    {
      tlb.Length == TlbSize && pageTable.Length == VirtualPages && mainMemory.Length == MemorySize
    }

    /** The tables and counters as a value of the functional model. */
    ghost function Abs(): (s: State)
      reads this, tlb, pageTable, mainMemory
    {
      State(tlb[..], pageTable[..], mainMemory[..], tlbIndex, fifoIndex, freePage,
            totalAddresses, tlbHits, pageFaults)
    }

    ghost predicate Valid()
      reads this, tlb, pageTable, mainMemory
    {
      Shape() && Invariant(Abs(), policy)
    }

    /** Zero-initialised statics, then the two initialisation loops of `main`. */
    constructor (policy: Policy)
      ensures Valid() && this.policy == policy && Abs() == Initial()
      ensures fresh(tlb) && fresh(pageTable) && fresh(mainMemory)
    {
      this.policy := policy;
      tlb := new TlbEntry[TlbSize](_ => TlbEntry(0, 0, false));
      pageTable := new PageTableEntry[VirtualPages](_ => PageTableEntry(0, false));
      mainMemory := new int8[MemorySize](_ => 0);
      tlbIndex, fifoIndex, freePage := 0, -1, 0;
      totalAddresses, tlbHits, pageFaults := 0, 0, 0;
      new;
      InitPageTable();
      InitTlb();
      assert tlb[..] == Initial().tlb;
      assert mainMemory[..] == Initial().memory;
      InitialInvariant(policy);
    }

    /** Every page-table entry becomes invalid with `physical = -1`, which is stored as 255. */
    method InitPageTable()
      requires Shape()
      modifies pageTable
      ensures pageTable[..] == seq(VirtualPages, _ => PageTableEntry(ToByte(-1), false))
    {
      var i := 0;
      while i < VirtualPages
        invariant 0 <= i <= VirtualPages
        invariant forall k :: 0 <= k < i ==> pageTable[k] == PageTableEntry(ToByte(-1), false)
      {
        pageTable[i] := pageTable[i].(valid := false);
        pageTable[i] := pageTable[i].(physical := ToByte(-1));
        i := i + 1;
      }
    }

    /** Every TLB slot has its valid bit cleared; its page numbers are left as they were. */
    method InitTlb()
      requires Shape()
      modifies tlb
      ensures forall k :: 0 <= k < TlbSize ==> tlb[k] == old(tlb[k]).(valid := false)
    {
      var i := 0;
      while i < TlbSize
        invariant 0 <= i <= TlbSize
        invariant forall k :: 0 <= k < i ==> tlb[k] == old(tlb[k]).(valid := false)
        invariant forall k :: i <= k < TlbSize ==> tlb[k] == old(tlb[k])
      {
        tlb[i] := tlb[i].(valid := false);
        i := i + 1;
      }
    }

    /** `search_tlb`. */
    method SearchTlb(logical: byte) returns (frame: int)
      requires Shape()
      ensures frame == TlbLookup(tlb[..], logical)
    {
      var i := 0;
      while i < TlbSize
        invariant 0 <= i <= TlbSize
        invariant forall j :: 0 <= j < i ==> !TlbMatches(tlb[..][j], logical)
      {
        if tlb[i].logical == logical && tlb[i].valid {
          assert TlbMatches(tlb[..][i], logical);
          return tlb[i].physical as int;
        }
        i := i + 1;
      }
      return -1;
    }

    /** `update_tlb`. */
    method UpdateTlb(frame: byte)
      requires Shape()
      modifies tlb
      ensures tlb[..] == ClearTlbFrame(old(tlb[..]), frame)
    {
      var i := 0;
      while i < TlbSize
        invariant 0 <= i <= TlbSize
        invariant tlb[..] == old(tlb[..])
        invariant forall j :: 0 <= j < i ==> tlb[j].physical != frame
      {
        if tlb[i].physical == frame {
          tlb[i] := tlb[i].(valid := false);
          return;
        }
        i := i + 1;
      }
    }

    /** `update_pagetable`. */
    method UpdatePageTable(frame: byte)
      requires Shape()
      modifies pageTable
      ensures pageTable[..] == ClearPageTableFrame(old(pageTable[..]), frame)
    {
      var i := 0;
      while i < VirtualPages
        invariant 0 <= i <= VirtualPages
        invariant pageTable[..] == old(pageTable[..])
        invariant forall j :: 0 <= j < i ==> pageTable[j].physical != frame
      {
        if pageTable[i].physical == frame {
          pageTable[i] := pageTable[i].(valid := false);
          return;
        }
        i := i + 1;
      }
    }

    /** `add_to_tlb`. */
    method AddToTlb(logical: byte, frame: byte)
      requires Shape() && WellFormed(Abs())
      modifies this`tlbIndex, tlb
      ensures Abs() == Translation.AddToTlb(old(Abs()), logical, frame)
    {
      tlb[tlbIndex % TlbSize] := tlb[tlbIndex % TlbSize].(logical := logical);
      tlb[tlbIndex % TlbSize] := tlb[tlbIndex % TlbSize].(physical := frame);
      tlb[tlbIndex % TlbSize] := tlb[tlbIndex % TlbSize].(valid := true);
      tlbIndex := tlbIndex + 1;
    }

    /** `FIFO`: the counter is never below -1, so C's `%` agrees with Dafny's here. */
    method Fifo() returns (frame: int)
      requires fifoIndex >= -1
      modifies this`fifoIndex
      ensures (fifoIndex, frame) == Translation.Fifo(old(fifoIndex))
    {
      fifoIndex := fifoIndex + 1;
      frame := fifoIndex % PhysicalPages;
    }

    /** A call through `page_replacement_policy`. */
    method SelectVictim() returns (frame: int)
      requires Shape() && WellFormed(Abs())
      modifies this`fifoIndex
      ensures (Abs(), frame) == Replace(old(Abs()), policy)
    {
      if policy == UseFifo {
        frame := Fifo();
      } else {
        frame := Lru();
      }
    }

    /** The body of the `while` loop of `main` for one logical address. */
    method Translate(address: int32, backing: seq<int8>) returns (physicalAddress: int, value: int8)
      requires Valid() && |backing| == BackingSize
      modifies this, tlb, pageTable, mainMemory
      ensures Valid()
      ensures (Abs(), Access(address, physicalAddress, value)) == Step(old(Abs()), policy, backing, address)
    {
      ghost var s := Abs();
      var physicalPage := LocateFrame(address, backing);
      var offset := Offset(address);
      physicalAddress := PhysicalAddress(physicalPage, offset);
      value := mainMemory[physicalPage * PageSize + offset];
      StepPreservesInvariant(s, policy, backing, address);
    }

    /**
     * The loop body up to the computation of the physical address: count the address, then
     * find its frame in the TLB, in the page table or by a page fault.
     */
    method LocateFrame(address: int32, backing: seq<int8>) returns (physicalPage: int)
      requires Shape() && WellFormed(Abs()) && |backing| == BackingSize
      modifies this`totalAddresses, this`tlbHits, this`pageFaults, this`freePage, this`fifoIndex,
        this`tlbIndex, tlb, pageTable, mainMemory
      ensures WellFormed(Abs()) && 0 <= physicalPage < PhysicalPages
      ensures Step(old(Abs()), policy, backing, address) == Resolve(Abs(), address, physicalPage)
    {
      ghost var s := Abs();
      ghost var r := Step(s, policy, backing, address);
      totalAddresses := totalAddresses + 1;
      var logicalPage := Page(address);
      physicalPage := SearchTlb(ToByte(logicalPage));
      if physicalPage != -1 {
        tlbHits := tlbHits + 1;
        assert Abs() == s.(totalAddresses := s.totalAddresses + 1, tlbHits := s.tlbHits + 1);
      } else {
        physicalPage := TranslateMiss(logicalPage, backing);
      }
    }

    /** The TLB-miss branch of the loop body: consult the page table, load the page on a fault, cache the mapping. */
    method TranslateMiss(logicalPage: int, backing: seq<int8>) returns (physicalPage: int)
      requires Shape() && WellFormed(Abs()) && |backing| == BackingSize && 0 <= logicalPage < VirtualPages
      modifies this`pageFaults, this`freePage, this`fifoIndex, this`tlbIndex, tlb, pageTable, mainMemory
      ensures 0 <= physicalPage < PhysicalPages
      ensures old(pageTable[logicalPage]).valid ==>
        physicalPage == old(pageTable[logicalPage]).physical as int &&
        Abs() == Translation.AddToTlb(old(Abs()), ToByte(logicalPage), ToByte(physicalPage))
      ensures !old(pageTable[logicalPage]).valid ==>
        var (loaded, frame) := PageFault(old(Abs()), policy, backing, logicalPage);
        physicalPage == frame && Abs() == Translation.AddToTlb(loaded, ToByte(logicalPage), ToByte(frame))
    {
      if pageTable[logicalPage].valid {
        physicalPage := pageTable[logicalPage].physical as int;
      } else {
        physicalPage := -1;
      }
      if physicalPage == -1 {
        physicalPage := LoadPage(logicalPage, backing);
      }
      AddToTlb(ToByte(logicalPage), ToByte(physicalPage));
    }

    /** The page-fault branch of the loop body: count, claim a frame, copy the page, bind it. */
    method LoadPage(logicalPage: int, backing: seq<int8>) returns (physicalPage: int)
      requires Shape() && WellFormed(Abs()) && |backing| == BackingSize && 0 <= logicalPage < VirtualPages
      modifies this`pageFaults, this`freePage, this`fifoIndex, tlb, pageTable, mainMemory
      ensures Abs() == PageFault(old(Abs()), policy, backing, logicalPage).0
      ensures physicalPage == PageFault(old(Abs()), policy, backing, logicalPage).1
    {
      pageFaults := pageFaults + 1;
      physicalPage := ClaimFrame();
      ghost var claimed := Abs();
      CopyFrame(physicalPage, logicalPage, backing);
      pageTable[logicalPage] := pageTable[logicalPage].(physical := ToByte(physicalPage));
      pageTable[logicalPage] := pageTable[logicalPage].(valid := true);
      assert Abs() == claimed.(memory := CopyPage(claimed.memory, physicalPage, backing, logicalPage),
        pageTable := claimed.pageTable[logicalPage := PageTableEntry(ToByte(physicalPage), true)]);
    }

    /** Take the next free frame if one is left, else evict the policy's victim. */
    method ClaimFrame() returns (physicalPage: int)
      requires Shape() && WellFormed(Abs())
      modifies this`freePage, this`fifoIndex, tlb, pageTable
      ensures Abs() == Claim(old(Abs()), policy).0 && physicalPage == Claim(old(Abs()), policy).1
    {
      if freePage < PhysicalPages {
        physicalPage := freePage;
        freePage := freePage + 1;
      } else {
        physicalPage := SelectVictim();
        UpdateTlb(ToByte(physicalPage));
        UpdatePageTable(ToByte(physicalPage));
      }
    }

    /** The `memcpy` of one page from the backing store into a frame. */
    method CopyFrame(physicalPage: int, logicalPage: int, backing: seq<int8>)
      requires Shape() && |backing| == BackingSize
      requires 0 <= physicalPage < PhysicalPages && 0 <= logicalPage < VirtualPages
      modifies mainMemory
      ensures mainMemory[..] == CopyPage(old(mainMemory[..]), physicalPage, backing, logicalPage)
    {
      forall i | 0 <= i < PageSize {
        mainMemory[physicalPage * PageSize + i] := backing[logicalPage * PageSize + i];
      }
      forall k | 0 <= k < MemorySize
        ensures mainMemory[k] == CopyPage(old(mainMemory[..]), physicalPage, backing, logicalPage)[k]
      {
        if physicalPage * PageSize <= k < physicalPage * PageSize + PageSize {
          assert mainMemory[physicalPage * PageSize + (k - physicalPage * PageSize)] ==
            backing[logicalPage * PageSize + (k - physicalPage * PageSize)];
        }
      }
    }

    /** The `while` loop of `main` over the whole input. */
    method Run(addresses: seq<int32>, backing: seq<int8>) returns (trace: seq<Access>)
      requires Valid() && |backing| == BackingSize
      modifies this, tlb, pageTable, mainMemory
      ensures Valid()
      ensures (Abs(), trace) == Translation.Run(old(Abs()), policy, backing, addresses)
    {
      ghost var start := Abs();
      trace := [];
      var n := 0;
      while n < |addresses|
        invariant 0 <= n <= |addresses|
        invariant (Abs(), trace) == Translation.Run(start, policy, backing, addresses[..n])
      {
        ghost var before := Abs();
        RunPreservesInvariant(start, policy, backing, addresses[..n]);
        RunExtend(start, policy, backing, addresses, n);
        var physicalAddress, value := Translate(addresses[n], backing);
        ghost var step := Step(before, policy, backing, addresses[n]);
        assert Abs() == step.0;
        trace := trace + [Access(addresses[n], physicalAddress, value)];
        n := n + 1;
      }
      assert addresses[..n] == addresses;
      RunPreservesInvariant(start, policy, backing, addresses);
    }
  }
}
