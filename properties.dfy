/** What the translation core guarantees, stated over the functions of module Translation. */
module TranslationProperties {
  import opened Types
  import opened Bitwise
  import opened Address
  import opened Tables
  import opened Translation

  /**
   * Facts every reachable state satisfies: the statistics add up, one TLB insert per
   * TLB miss, free frames are handed out before the policy is called and FIFO is
   * called once per later fault, and valid entries only name frames already handed out.
   */
  ghost predicate Invariant(s: State, policy: Policy)
  {
    Consistent(s, policy) && s.tlbIndex == s.totalAddresses - s.tlbHits
  }

  /** Invariant without the TLB insert count, which a miss restores only at its end. */
  ghost predicate Consistent(s: State, policy: Policy)
  {
    WellFormed(s) &&
    0 <= s.tlbHits && 0 <= s.pageFaults && s.tlbHits + s.pageFaults <= s.totalAddresses &&
    s.freePage == (if s.pageFaults < PhysicalPages then s.pageFaults else PhysicalPages) &&
    s.fifoIndex == (if policy == UseFifo then Max(s.pageFaults - PhysicalPages, 0) else 0) - 1 &&
    (forall i :: 0 <= i < |s.pageTable| && s.pageTable[i].valid ==> s.pageTable[i].physical as int < s.freePage) &&
    (forall i :: 0 <= i < |s.tlb| && s.tlb[i].valid ==> s.tlb[i].physical as int < s.freePage)
  }

  /** The frame a page fault takes when `faults` faults have happened before it. */
  function NextFaultFrame(faults: int, policy: Policy): (frame: int)
    ensures faults >= 0 ==> 0 <= frame < PhysicalPages
  {
    if faults < PhysicalPages then faults
    else match policy
      case UseFifo => (faults - PhysicalPages) % PhysicalPages
      case UseLru => 2
  }

  /** The condition under which `main` announces a page fault for `address`. */
  predicate Faults(s: State, address: int32)
    requires WellFormed(s)
  {
    TlbLookup(s.tlb, ToByte(Page(address))) == -1 && !s.pageTable[Page(address)].valid
  }

  /** The initial state satisfies the invariant; every page-table entry holds the sentinel 255 and is invalid. */
  lemma InitialInvariant(policy: Policy)
    ensures Invariant(Initial(), policy)
    ensures forall i :: 0 <= i < VirtualPages ==> Initial().pageTable[i] == PageTableEntry(255, false)
  {
    InitialTables(Initial());
  }

  /** Tables and counters of the initial state: nothing valid, memory zero, `fifo_index` at -1. */
  lemma InitialTables(s: State)
    requires s == Initial()
    ensures forall i :: 0 <= i < VirtualPages ==> s.pageTable[i] == PageTableEntry(255, false)
    ensures forall i :: 0 <= i < TlbSize ==> !s.tlb[i].valid
    ensures forall i :: 0 <= i < MemorySize ==> s.memory[i] == 0
    ensures s.tlbIndex == 0 && s.fifoIndex == -1 && s.freePage == 0
    ensures s.totalAddresses == 0 && s.tlbHits == 0 && s.pageFaults == 0
  {
    assert ToByte(-1) == 255;
  }

  /** The k-th FIFO call after counter value `fifoIndex` returns `(fifoIndex + 1 + k) % 256`. */
  lemma {:induction false} FifoVictimsFrom(fifoIndex: int, n: nat)
    requires fifoIndex >= -1
    ensures |FifoVictims(fifoIndex, n)| == n
    ensures forall k :: 0 <= k < n ==> FifoVictims(fifoIndex, n)[k] == (fifoIndex + 1 + k) % PhysicalPages
    decreases n
  {
    if n > 0 {
      FifoVictimsFrom(fifoIndex + 1, n - 1);
      var rest := FifoVictims(fifoIndex + 1, n - 1);
      assert FifoVictims(fifoIndex, n) == [(fifoIndex + 1) % PhysicalPages] + rest;
      forall k | 0 <= k < n
        ensures FifoVictims(fifoIndex, n)[k] == (fifoIndex + 1 + k) % PhysicalPages
      {
        if k > 0 {
          assert FifoVictims(fifoIndex, n)[k] == rest[k - 1];
        }
      }
    }
  }

  /** From the initial counter the victims are 0, 1, ..., 255, 0, 1, ...: call k + 1 returns k mod 256. */
  lemma FifoOrder(n: nat)
    ensures |FifoVictims(-1, n)| == n
    ensures forall k :: 0 <= k < n ==> FifoVictims(-1, n)[k] == k % PhysicalPages
    ensures forall k :: 0 <= k < n ==> 0 <= FifoVictims(-1, n)[k] < PhysicalPages
  {
    FifoVictimsFrom(-1, n);
  }

  /** Each address is counted once; a hit exactly when `search_tlb` succeeds; a fault exactly on a TLB miss with an invalid entry. */
  lemma StepStatistics(s: State, policy: Policy, backing: seq<int8>, address: int32)
    requires WellFormed(s) && |backing| == BackingSize
    ensures var r := Step(s, policy, backing, address).0;
      var hit := TlbLookup(s.tlb, ToByte(Page(address))) != -1;
      r.totalAddresses == s.totalAddresses + 1 &&
      r.tlbHits == s.tlbHits + (if hit then 1 else 0) &&
      r.pageFaults == s.pageFaults + (if Faults(s, address) then 1 else 0)
  {
  }

  /** Every step reports its input, a physical address with the same offset, and the byte there. */
  lemma StepOutput(s: State, policy: Policy, backing: seq<int8>, address: int32)
    requires WellFormed(s) && |backing| == BackingSize
    ensures var (r, access) := Step(s, policy, backing, address);
      access.logicalAddress == address &&
      0 <= access.physicalAddress < MemorySize &&
      access.physicalAddress % PageSize == Offset(address) &&
      access.value == r.memory[access.physicalAddress]
  {
  }

  /** A TLB hit counts the hit and changes nothing else; the frame is the one the TLB holds. */
  lemma StepTlbHit(s: State, policy: Policy, backing: seq<int8>, address: int32)
    requires WellFormed(s) && |backing| == BackingSize
    requires TlbLookup(s.tlb, ToByte(Page(address))) != -1
    ensures var (r, access) := Step(s, policy, backing, address);
      var frame := TlbLookup(s.tlb, ToByte(Page(address)));
      r == s.(totalAddresses := s.totalAddresses + 1, tlbHits := s.tlbHits + 1) &&
      access.physicalAddress == frame * PageSize + Offset(address)
  {
  }

  /** A TLB miss on a valid page-table entry uses that entry's frame and inserts it into the TLB. */
  lemma StepPageTableHit(s: State, policy: Policy, backing: seq<int8>, address: int32)
    requires WellFormed(s) && |backing| == BackingSize
    requires TlbLookup(s.tlb, ToByte(Page(address))) == -1 && s.pageTable[Page(address)].valid
    ensures var (r, access) := Step(s, policy, backing, address);
      var entry := s.pageTable[Page(address)];
      r == AddToTlb(s.(totalAddresses := s.totalAddresses + 1), ToByte(Page(address)), entry.physical) &&
      access.physicalAddress == entry.physical as int * PageSize + Offset(address)
  {
  }

  /** Every TLB miss, fault or not, writes the resolved mapping into slot `tlbindex % 16`. */
  lemma StepMissInsertsTlb(s: State, policy: Policy, backing: seq<int8>, address: int32)
    requires WellFormed(s) && |backing| == BackingSize
    requires TlbLookup(s.tlb, ToByte(Page(address))) == -1
    ensures var (r, access) := Step(s, policy, backing, address);
      r.tlb[s.tlbIndex % TlbSize] == TlbEntry(ToByte(Page(address)), ToByte(access.physicalAddress / PageSize), true) &&
      r.tlbIndex == s.tlbIndex + 1
  {
  }

  /**
   * A page fault loads the page into its frame and binds it, leaving every other frame
   * alone; the replacement path first invalidates the victim in the TLB, then in the
   * page table; the TLB then receives the new mapping; the byte read is the backing
   * store's byte at the low 20 bits of the address.
   */
  lemma StepPageFault(s: State, policy: Policy, backing: seq<int8>, address: int32)
    requires WellFormed(s) && |backing| == BackingSize && Faults(s, address)
    ensures var (r, access) := Step(s, policy, backing, address);
      var page, frame := Page(address), access.physicalAddress / PageSize;
      var evicting := s.freePage == PhysicalPages;
      var tlb := if evicting then ClearTlbFrame(s.tlb, ToByte(frame)) else s.tlb;
      var pageTable := if evicting then ClearPageTableFrame(s.pageTable, ToByte(frame)) else s.pageTable;
      0 <= frame < PhysicalPages &&
      (forall i :: frame * PageSize <= i < frame * PageSize + PageSize ==>
         r.memory[i] == backing[page * PageSize + (i - frame * PageSize)]) &&
      (forall i :: 0 <= i < MemorySize && i / PageSize != frame ==> r.memory[i] == s.memory[i]) &&
      r.pageTable == pageTable[page := PageTableEntry(ToByte(frame), true)] &&
      r.tlb == tlb[s.tlbIndex % TlbSize := TlbEntry(ToByte(page), ToByte(frame), true)] &&
      r.tlbIndex == s.tlbIndex + 1 &&
      access.value == backing[address as int % 0x10_0000]
  {
    var (r, access) := Step(s, policy, backing, address);
    var page, offset := Page(address), Offset(address);
    var frame := access.physicalAddress / PageSize;
    forall i | 0 <= i < MemorySize && i / PageSize != frame
      ensures r.memory[i] == s.memory[i]
    {
      assert !(frame * PageSize <= i < frame * PageSize + PageSize);
    }
    SplitRecombines(address);
    assert r.memory[frame * PageSize + offset] == backing[page * PageSize + offset];
  }

  /**
   * Free frames first: the first 256 faults take frames 0, 1, ..., 255 in order and
   * advance `free_page`; later faults take the policy's victim, which under FIFO is
   * frame `(faults - 256) mod 256` and under the LRU stub frame 2.
   */
  lemma StepFaultFrame(s: State, policy: Policy, backing: seq<int8>, address: int32)
    requires Invariant(s, policy) && |backing| == BackingSize && Faults(s, address)
    ensures var (r, access) := Step(s, policy, backing, address);
      var frame := NextFaultFrame(s.pageFaults, policy);
      access.physicalAddress == frame * PageSize + Offset(address) &&
      r.pageTable[Page(address)] == PageTableEntry(frame as byte, true) &&
      r.freePage == (if s.freePage < PhysicalPages then s.freePage + 1 else s.freePage) &&
      (s.freePage < PhysicalPages ==> frame == s.freePage && r.fifoIndex == s.fifoIndex) &&
      (s.freePage == PhysicalPages ==> r.fifoIndex == (if policy == UseFifo then s.fifoIndex + 1 else s.fifoIndex))
  {
    var page := Page(address);
    var counted := s.(totalAddresses := s.totalAddresses + 1);
    var fault := PageFault(counted, policy, backing, page);
    StepFaultIsPageFault(s, policy, backing, address);
    PageFaultFrame(counted, policy, backing, page);
    assert ToByte(fault.1) == fault.1 as byte;
  }

  /** The fault path of Step, spelled out. */
  lemma StepFaultIsPageFault(s: State, policy: Policy, backing: seq<int8>, address: int32)
    requires WellFormed(s) && |backing| == BackingSize && Faults(s, address)
    ensures var page := Page(address);
      var fault := PageFault(s.(totalAddresses := s.totalAddresses + 1), policy, backing, page);
      Step(s, policy, backing, address) == Resolve(AddToTlb(fault.0, ToByte(page), ToByte(fault.1)), address, fault.1)
  {
  }

  /** The frame a fault takes, and how it moves `free_page` and the FIFO counter. */
  lemma PageFaultFrame(s: State, policy: Policy, backing: seq<int8>, page: int)
    requires Consistent(s, policy) && |backing| == BackingSize && 0 <= page < VirtualPages
    ensures var (r, frame) := PageFault(s, policy, backing, page);
      frame == NextFaultFrame(s.pageFaults, policy) &&
      r.pageTable[page] == PageTableEntry(ToByte(frame), true) &&
      r.freePage == (if s.freePage < PhysicalPages then s.freePage + 1 else s.freePage) &&
      (s.freePage < PhysicalPages ==> frame == s.freePage && r.fifoIndex == s.fifoIndex) &&
      (s.freePage == PhysicalPages ==> r.fifoIndex == (if policy == UseFifo then s.fifoIndex + 1 else s.fifoIndex))
  {
    var counted := s.(pageFaults := s.pageFaults + 1);
    if s.freePage == PhysicalPages && policy == UseFifo {
      assert s.fifoIndex == s.pageFaults - PhysicalPages - 1;
      assert Evict(counted, policy).1 == (s.pageFaults - PhysicalPages) % PhysicalPages;
    }
  }

  lemma StepPreservesInvariant(s: State, policy: Policy, backing: seq<int8>, address: int32)
    requires Invariant(s, policy) && |backing| == BackingSize
    ensures Invariant(Step(s, policy, backing, address).0, policy)
  {
    var page := Page(address);
    if TlbLookup(s.tlb, ToByte(page)) != -1 {
      StepTlbHit(s, policy, backing, address);
    } else if s.pageTable[page].valid {
      StepPageTableHit(s, policy, backing, address);
      AddToTlbPreservesInvariant(s.(totalAddresses := s.totalAddresses + 1), policy, ToByte(page), s.pageTable[page].physical);
    } else {
      FaultPreservesInvariant(s, policy, backing, address);
    }
  }

  /** A TLB insert after a counted miss keeps the invariant, provided its frame is handed out. */
  lemma AddToTlbPreservesInvariant(s: State, policy: Policy, logical: byte, frame: byte)
    requires Consistent(s, policy) && s.tlbIndex + 1 == s.totalAddresses - s.tlbHits
    requires frame as int < s.freePage
    ensures Invariant(AddToTlb(s, logical, frame), policy)
  {
    var r := AddToTlb(s, logical, frame);
    forall i | 0 <= i < TlbSize && r.tlb[i].valid
      ensures r.tlb[i].physical as int < r.freePage
    {
      if i != s.tlbIndex % TlbSize {
        assert r.tlb[i] == s.tlb[i];
      }
    }
  }

  lemma FaultPreservesInvariant(s: State, policy: Policy, backing: seq<int8>, address: int32)
    requires Invariant(s, policy) && |backing| == BackingSize && Faults(s, address)
    ensures Invariant(Step(s, policy, backing, address).0, policy)
  {
    var page := Page(address);
    var counted := s.(totalAddresses := s.totalAddresses + 1);
    PageFaultKeepsConsistent(counted, policy, backing, page);
    var fault := PageFault(counted, policy, backing, page);
    StepFaultIsPageFault(s, policy, backing, address);
    AddToTlbPreservesInvariant(fault.0, policy, ToByte(page), ToByte(fault.1));
  }

  /** A fault keeps the counting facts and the handed-out-frames facts, and hands out its own frame. */
  lemma PageFaultKeepsConsistent(s: State, policy: Policy, backing: seq<int8>, page: int)
    requires Consistent(s, policy) && s.tlbHits + s.pageFaults < s.totalAddresses
    requires |backing| == BackingSize && 0 <= page < VirtualPages
    ensures var (r, frame) := PageFault(s, policy, backing, page);
      Consistent(r, policy) && frame < r.freePage &&
      r.tlbIndex == s.tlbIndex && r.totalAddresses == s.totalAddresses && r.tlbHits == s.tlbHits
  {
    var (r, frame) := PageFault(s, policy, backing, page);
    if s.freePage < PhysicalPages {
      assert r.tlb == s.tlb;
      forall i | 0 <= i < VirtualPages && r.pageTable[i].valid
        ensures r.pageTable[i].physical as int < r.freePage
      {
        if i != page {
          assert r.pageTable[i] == s.pageTable[i];
        }
      }
    }
  }

  lemma {:induction false} RunPreservesInvariant(s: State, policy: Policy, backing: seq<int8>, addresses: seq<int32>)
    requires Invariant(s, policy) && |backing| == BackingSize
    ensures Invariant(Run(s, policy, backing, addresses).0, policy)
    decreases |addresses|
  {
    if addresses != [] {
      var prefix := addresses[..|addresses| - 1];
      RunPreservesInvariant(s, policy, backing, prefix);
      StepPreservesInvariant(Run(s, policy, backing, prefix).0, policy, backing, addresses[|addresses| - 1]);
    }
  }

  /** Running one more address of the input is running the shorter prefix and then stepping once. */
  lemma RunExtend(s: State, policy: Policy, backing: seq<int8>, addresses: seq<int32>, n: nat)
    requires WellFormed(s) && |backing| == BackingSize && n < |addresses|
    ensures var run := Run(s, policy, backing, addresses[..n]);
      var step := Step(run.0, policy, backing, addresses[n]);
      Run(s, policy, backing, addresses[..n + 1]) == (step.0, run.1 + [step.1])
  {
    assert addresses[..n + 1][..n] == addresses[..n];
  }

  /** A run counts every address and never has more hits and faults than addresses. */
  lemma {:induction false} RunStatistics(s: State, policy: Policy, backing: seq<int8>, addresses: seq<int32>)
    requires Invariant(s, policy) && |backing| == BackingSize
    ensures var r := Run(s, policy, backing, addresses).0;
      r.totalAddresses == s.totalAddresses + |addresses| &&
      r.tlbHits + r.pageFaults <= r.totalAddresses &&
      s.tlbHits <= r.tlbHits && s.pageFaults <= r.pageFaults
    decreases |addresses|
  {
    RunPreservesInvariant(s, policy, backing, addresses);
    if addresses != [] {
      var prefix := addresses[..|addresses| - 1];
      RunStatistics(s, policy, backing, prefix);
      StepStatistics(Run(s, policy, backing, prefix).0, policy, backing, addresses[|addresses| - 1]);
    }
  }

  /** A trace that follows all but the last address, extended by an access for the last one, follows them all. */
  lemma TraceExtends(trace: seq<Access>, last: Access, addresses: seq<int32>)
    requires |addresses| > 0 && |trace| == |addresses| - 1
    requires forall i :: 0 <= i < |trace| ==> trace[i].logicalAddress == addresses[i]
    requires last.logicalAddress == addresses[|addresses| - 1]
    ensures forall i :: 0 <= i < |addresses| ==> (trace + [last])[i].logicalAddress == addresses[i]
  {
    forall i | 0 <= i < |addresses| ensures (trace + [last])[i].logicalAddress == addresses[i] {
      if i < |trace| {
        assert (trace + [last])[i] == trace[i];
      }
    }
  }

  /** A run reports one access per input address, in input order. */
  lemma {:induction false} RunTrace(s: State, policy: Policy, backing: seq<int8>, addresses: seq<int32>)
    requires WellFormed(s) && |backing| == BackingSize
    ensures var trace := Run(s, policy, backing, addresses).1;
      forall i :: 0 <= i < |addresses| ==> trace[i].logicalAddress == addresses[i]
    decreases |addresses|
  {
    if addresses != [] {
      var prefix := addresses[..|addresses| - 1];
      RunTrace(s, policy, backing, prefix);
      var run := Run(s, policy, backing, prefix);
      var last := Step(run.0, policy, backing, addresses[|addresses| - 1]).1;
      assert Run(s, policy, backing, addresses).1 == run.1 + [last];
      TraceExtends(run.1, last, addresses);
    }
  }

  /** After a TLB miss, the only valid TLB slot that changed is the one just written. */
  lemma StepMissKeepsOtherSlots(s: State, policy: Policy, backing: seq<int8>, address: int32)
    requires WellFormed(s) && |backing| == BackingSize
    requires TlbLookup(s.tlb, ToByte(Page(address))) == -1
    ensures var r := Step(s, policy, backing, address).0;
      forall j :: 0 <= j < TlbSize && j != s.tlbIndex % TlbSize && r.tlb[j].valid ==> r.tlb[j] == s.tlb[j]
  {
  }

  /**
   * After a TLB miss on `a`, an address `b` whose page has the same low 8 bits (the
   * same page, or one 256 pages away) hits the TLB at once and gets the frame `a` got.
   */
  lemma MissThenHit(s: State, policy: Policy, backing: seq<int8>, a: int32, b: int32)
    requires WellFormed(s) && |backing| == BackingSize
    requires TlbLookup(s.tlb, ToByte(Page(a))) == -1
    requires ToByte(Page(b)) == ToByte(Page(a))
    ensures var (r1, access1) := Step(s, policy, backing, a);
      var (r2, access2) := Step(r1, policy, backing, b);
      var frame := access1.physicalAddress / PageSize;
      TlbLookup(r1.tlb, ToByte(Page(b))) == frame &&
      r2 == r1.(totalAddresses := r1.totalAddresses + 1, tlbHits := r1.tlbHits + 1) &&
      access2.physicalAddress == frame * PageSize + Offset(b)
  {
    var (r1, access1) := Step(s, policy, backing, a);
    var frame := access1.physicalAddress / PageSize;
    var slot := s.tlbIndex % TlbSize;
    var l := ToByte(Page(b));
    StepMissInsertsTlb(s, policy, backing, a);
    StepMissKeepsOtherSlots(s, policy, backing, a);
    StepOutput(s, policy, backing, a);
    assert TlbMatches(r1.tlb[slot], l);
    forall j | 0 <= j < TlbSize && j != slot ensures !TlbMatches(r1.tlb[j], l) {
      if r1.tlb[j].valid {
        assert r1.tlb[j] == s.tlb[j];
      }
    }
    assert TlbLookup(r1.tlb, l) == frame;
    StepTlbHit(r1, policy, backing, b);
  }

  /** The first page fault of a run takes frame 0 and returns the backing store's byte at the address. */
  lemma FirstFault(s: State, policy: Policy, backing: seq<int8>, address: int32)
    requires Invariant(s, policy) && |backing| == BackingSize
    requires s.pageFaults == 0 && Faults(s, address)
    ensures var (r, access) := Step(s, policy, backing, address);
      r.pageFaults == 1 && r.tlbHits == s.tlbHits &&
      access.physicalAddress == Offset(address) && access.value == backing[address as int % 0x10_0000]
  {
    StepStatistics(s, policy, backing, address);
    StepFaultFrame(s, policy, backing, address);
    StepPageFault(s, policy, backing, address);
  }

  /** Composing a page and an offset and splitting the result gives back that page and offset. */
  lemma SplitOfComposed(address: int32, page: int, offset: int)
    requires 0 <= offset < PageSize && 0 <= page < VirtualPages && address as int == page * PageSize + offset
    ensures Page(address) == page && Offset(address) == offset
  {
    Bitwise.UniqueDivMod(address as int, PageSize, page, offset);
    Bitwise.UniqueDivMod(page, VirtualPages, 0, page);
  }

  /**
   * Address 16916 is page 16, offset 532. From the initial state `start` it faults into frame 0,
   * so its physical address is 532; the next address of page 16 is a TLB hit. (The address is a
   * parameter fixed by the requires, which keeps the verifier from evaluating the bit
   * operations on a literal.)
   */
  lemma ColdStartScenario(start: State, policy: Policy, backing: seq<int8>, address: int32, later: int32)
    requires start == Initial() && |backing| == BackingSize
    requires address == 16916 && Page(later) == 16
    ensures Page(address) == 16 && Offset(address) == 532
    ensures var (s1, access) := Step(start, policy, backing, address);
      s1.pageFaults == 1 && s1.tlbHits == 0 && access.physicalAddress == 532 &&
      access.value == backing[16916] &&
      Step(s1, policy, backing, later).0.tlbHits == 1
  {
    ColdStateFaults(start, policy, address);
    ColdStart(start, policy, backing, address, later);
  }

  /** The initial state satisfies the invariant and has no statistics, and any address faults in it. */
  lemma ColdStateFaults(start: State, policy: Policy, address: int32)
    requires start == Initial()
    ensures Invariant(start, policy) && start.pageFaults == 0 && start.tlbHits == 0
    ensures Faults(start, address)
  {
    InitialInvariant(policy);
    InitialTables(start);
  }

  /** `ColdStartScenario` from any state that satisfies the invariant, has no statistics and faults on 16916. */
  lemma ColdStart(s: State, policy: Policy, backing: seq<int8>, address: int32, later: int32)
    requires Invariant(s, policy) && |backing| == BackingSize
    requires s.pageFaults == 0 && s.tlbHits == 0 && Faults(s, address)
    requires address == 16916 && Page(later) == 16
    ensures Page(address) == 16 && Offset(address) == 532
    ensures var (s1, access) := Step(s, policy, backing, address);
      s1.pageFaults == 1 && s1.tlbHits == 0 && access.physicalAddress == 532 &&
      access.value == backing[16916] &&
      Step(s1, policy, backing, later).0.tlbHits == 1
  {
    SplitOfComposed(address, 16, 532);
    FirstFault(s, policy, backing, address);
    MissThenHit(s, policy, backing, address, later);
  }

  /**
   * TLB slots keep only the low 8 bits of the page: after page 44 (address 45056) is
   * loaded into frame 0, page 300 (address 307200) is a TLB hit on that slot, no
   * fault is taken, and the byte returned is page 44's, not page 300's.
   */
  lemma TlbAliasScenario(start: State, policy: Policy, backing: seq<int8>, a: int32, b: int32)
    requires start == Initial() && |backing| == BackingSize
    requires a == 45056 && b == 307200
    ensures Page(a) == 44 && Page(b) == 300
    ensures var s1 := Step(start, policy, backing, a).0;
      var (s2, access) := Step(s1, policy, backing, b);
      s2.tlbHits == 1 && s2.pageFaults == 1 &&
      access.physicalAddress == 0 && access.value == backing[45056]
  {
    ColdStateFaults(start, policy, a);
    TlbAlias(start, policy, backing, a, b);
  }

  /** `TlbAliasScenario` from any state that satisfies the invariant, has no statistics and faults on 45056. */
  lemma TlbAlias(s: State, policy: Policy, backing: seq<int8>, a: int32, b: int32)
    requires Invariant(s, policy) && |backing| == BackingSize
    requires s.pageFaults == 0 && s.tlbHits == 0 && Faults(s, a)
    requires a == 45056 && b == 307200
    ensures Page(a) == 44 && Page(b) == 300
    ensures var s1 := Step(s, policy, backing, a).0;
      var (s2, access) := Step(s1, policy, backing, b);
      s2.tlbHits == 1 && s2.pageFaults == 1 &&
      access.physicalAddress == 0 && access.value == backing[45056]
  {
    SplitOfComposed(a, 44, 0);
    SplitOfComposed(b, 300, 0);
    assert ToByte(300) == ToByte(44);
    FaultThenAliasHit(s, policy, backing, a, b);
  }

  /**
   * The first fault on `a` followed by `b`, whose page has the same low 8 bits and whose
   * offset is the same: `b` hits the TLB and reads the byte that `a` loaded.
   */
  lemma FaultThenAliasHit(s: State, policy: Policy, backing: seq<int8>, a: int32, b: int32)
    requires Invariant(s, policy) && |backing| == BackingSize
    requires s.pageFaults == 0 && Faults(s, a)
    requires ToByte(Page(b)) == ToByte(Page(a)) && Offset(b) == Offset(a)
    ensures var s1 := Step(s, policy, backing, a).0;
      var (s2, access) := Step(s1, policy, backing, b);
      s2.tlbHits == s.tlbHits + 1 && s2.pageFaults == 1 &&
      access.physicalAddress == Offset(a) && access.value == backing[a as int % 0x10_0000]
  {
    FirstFault(s, policy, backing, a);
    MissThenHit(s, policy, backing, a, b);
    StepOutput(s, policy, backing, a);
    StepOutput(Step(s, policy, backing, a).0, policy, backing, b);
  }
}
