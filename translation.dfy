/**
 * The translation core of part2.c as a function of its state: one input address
 * through the TLB, the page table, fault handling, replacement and the memory read.
 */
module Translation {
  import opened Types
  import opened Address
  import opened Tables

  /** The page-replacement function selected on the command line: 0 is FIFO, 1 is the LRU stub. */
  datatype Policy = UseFifo | UseLru

  /** The global tables and counters of part2.c, and the three statistics of `main`. */
  datatype State = State(
    tlb: seq<TlbEntry>,
    pageTable: seq<PageTableEntry>,
    memory: seq<int8>,
    tlbIndex: int,
    fifoIndex: int,
    freePage: int,
    totalAddresses: int,
    tlbHits: int,
    pageFaults: int)

  /** One line of the trace: the logical address, its physical address and the byte read. */
  datatype Access = Access(logicalAddress: int32, physicalAddress: int, value: int8)

  /** Table sizes, and the counter ranges under which the C operations are the ones modelled here. */
  predicate WellFormed(s: State)
  {
    |s.tlb| == TlbSize && |s.pageTable| == VirtualPages && |s.memory| == MemorySize &&
    0 <= s.tlbIndex && -1 <= s.fifoIndex && 0 <= s.freePage <= PhysicalPages
  }

  /**
   * The state before the first address: zero-initialised statics, page-table entries
   * invalid with `physical = -1` (stored as 255), TLB slots invalid, `fifo_index = -1`.
   */
  function Initial(): (s: State)
    ensures WellFormed(s)
  {
    State(
      seq(TlbSize, _ => TlbEntry(0, 0, false)),
      seq(VirtualPages, _ => PageTableEntry(ToByte(-1), false)),
      seq(MemorySize, _ => 0),
      0, -1, 0, 0, 0, 0)
  }

  /** `FIFO`: advance the counter, return it modulo the number of frames. */
  function Fifo(fifoIndex: int): (r: (int, int))
    requires fifoIndex >= -1
    ensures r.0 == fifoIndex + 1
    ensures 0 <= r.1 < PhysicalPages
    ensures r.1 == (fifoIndex + 1) % PhysicalPages
  {
    (fifoIndex + 1, (fifoIndex + 1) % PhysicalPages)
  }

  /** `LRU`: in this source a stub that always names frame 2. */
  function Lru(): (r: int)
    ensures 0 <= r < PhysicalPages
  {
    2
  }

  /** The frames returned by `n` successive `FIFO` calls starting from counter `fifoIndex`. */
  function FifoVictims(fifoIndex: int, n: nat): (r: seq<int>)
    requires fifoIndex >= -1
    ensures |r| == n
    decreases n
  {
    if n == 0 then []
    else
      var (next, frame) := Fifo(fifoIndex);
      [frame] + FifoVictims(next, n - 1)
  }

  /** `page_replacement_policy()`: a victim frame and the policy's new state. */
  function Replace(s: State, policy: Policy): (r: (State, int))
    requires WellFormed(s)
    ensures WellFormed(r.0) && 0 <= r.1 < PhysicalPages
    ensures r.0 == s.(fifoIndex := r.0.fifoIndex)
    ensures policy == UseFifo ==> r.0.fifoIndex == s.fifoIndex + 1 && r.1 == (s.fifoIndex + 1) % PhysicalPages
    ensures policy == UseLru ==> r.0 == s && r.1 == 2
  {
    match policy
    case UseFifo =>
      var (next, frame) := Fifo(s.fifoIndex);
      (s.(fifoIndex := next), frame)
    case UseLru => (s, Lru())
  }

  /** Replacement path of a fault: pick a victim, then invalidate it in the TLB and the page table. */
  function Evict(s: State, policy: Policy): (r: (State, int))
    requires WellFormed(s)
    ensures WellFormed(r.0) && 0 <= r.1 < PhysicalPages
    ensures r.1 == Replace(s, policy).1
    ensures r.0.tlb == ClearTlbFrame(s.tlb, ToByte(r.1))
    ensures r.0.pageTable == ClearPageTableFrame(s.pageTable, ToByte(r.1))
    ensures r.0 == Replace(s, policy).0.(tlb := r.0.tlb, pageTable := r.0.pageTable)
  {
    var (chosen, frame) := Replace(s, policy);
    (chosen.(tlb := ClearTlbFrame(chosen.tlb, ToByte(frame)),
             pageTable := ClearPageTableFrame(chosen.pageTable, ToByte(frame))), frame)
  }

  /** The frame a fault loads into: the next never-used frame while one is left, else a victim. */
  function Claim(s: State, policy: Policy): (r: (State, int))
    requires WellFormed(s)
    ensures WellFormed(r.0) && 0 <= r.1 < PhysicalPages
    ensures s.freePage < PhysicalPages ==> r.1 == s.freePage && r.0 == s.(freePage := s.freePage + 1)
    ensures s.freePage == PhysicalPages ==> r == Evict(s, policy)
    ensures r.0 == s.(freePage := r.0.freePage, fifoIndex := r.0.fifoIndex, tlb := r.0.tlb, pageTable := r.0.pageTable)
  {
    if s.freePage < PhysicalPages then (s.(freePage := s.freePage + 1), s.freePage)
    else Evict(s, policy)
  }

  /** A page fault on `page`: count it, take a free or a victim frame, load the page, bind it. */
  function PageFault(s: State, policy: Policy, backing: seq<int8>, page: int): (r: (State, int))
    requires WellFormed(s) && |backing| == BackingSize && 0 <= page < VirtualPages
    ensures WellFormed(r.0) && 0 <= r.1 < PhysicalPages
    ensures r.0.pageFaults == s.pageFaults + 1
    ensures r.0.pageTable[page] == PageTableEntry(ToByte(r.1), true)
    ensures var claimed := Claim(s.(pageFaults := s.pageFaults + 1), policy);
      r.1 == claimed.1 && r.0.tlb == claimed.0.tlb &&
      r.0.freePage == claimed.0.freePage && r.0.fifoIndex == claimed.0.fifoIndex &&
      r.0.memory == CopyPage(claimed.0.memory, r.1, backing, page) &&
      (forall i :: 0 <= i < VirtualPages && i != page ==> r.0.pageTable[i] == claimed.0.pageTable[i])
    ensures r.0.tlbIndex == s.tlbIndex && r.0.totalAddresses == s.totalAddresses && r.0.tlbHits == s.tlbHits
  {
    var counted := s.(pageFaults := s.pageFaults + 1);
    var (claimed, frame) := Claim(counted, policy);
    (claimed.(memory := CopyPage(claimed.memory, frame, backing, page),
              pageTable := claimed.pageTable[page := PageTableEntry(ToByte(frame), true)]), frame)
  }

  /** `add_to_tlb`: overwrite slot `tlbindex % TLB_SIZE` with a valid mapping and count the insert. */
  function AddToTlb(s: State, logical: byte, frame: byte): (r: State)
    requires WellFormed(s)
    ensures WellFormed(r)
    ensures r.tlb[s.tlbIndex % TlbSize] == TlbEntry(logical, frame, true)
    ensures forall k :: 0 <= k < TlbSize && k != s.tlbIndex % TlbSize ==> r.tlb[k] == s.tlb[k]
    ensures r == s.(tlb := r.tlb, tlbIndex := s.tlbIndex + 1)
  {
    s.(tlb := s.tlb[s.tlbIndex % TlbSize := TlbEntry(logical, frame, true)], tlbIndex := s.tlbIndex + 1)
  }

  /** The end of the loop body: the physical address and the byte of main memory there. */
  function Resolve(s: State, address: int32, frame: int): (r: (State, Access))
    requires WellFormed(s) && 0 <= frame < PhysicalPages
    ensures r.0 == s && r.1.logicalAddress == address
    ensures r.1.physicalAddress == frame * PageSize + Offset(address) && 0 <= r.1.physicalAddress < MemorySize
    ensures r.1.value == s.memory[r.1.physicalAddress]
  {
    var offset := Offset(address);
    (s, Access(address, PhysicalAddress(frame, offset), s.memory[frame * PageSize + offset]))
  }

  /** The body of the `while` loop of `main` for one logical address. */
  function Step(s: State, policy: Policy, backing: seq<int8>, address: int32): (r: (State, Access))
    requires WellFormed(s) && |backing| == BackingSize
    ensures WellFormed(r.0)
    ensures r.0.totalAddresses == s.totalAddresses + 1 && r.1.logicalAddress == address
  {
    var page := Page(address);
    var counted := s.(totalAddresses := s.totalAddresses + 1);
    var cached := TlbLookup(s.tlb, ToByte(page));
    if cached != -1 then
      Resolve(counted.(tlbHits := counted.tlbHits + 1), address, cached)
    else if s.pageTable[page].valid then
      var frame := s.pageTable[page].physical as int;
      Resolve(AddToTlb(counted, ToByte(page), ToByte(frame)), address, frame)
    else
      var (loaded, frame) := PageFault(counted, policy, backing, page);
      Resolve(AddToTlb(loaded, ToByte(page), ToByte(frame)), address, frame)
  }

  /** The whole `while` loop of `main` over a sequence of input addresses. */
  function Run(s: State, policy: Policy, backing: seq<int8>, addresses: seq<int32>): (r: (State, seq<Access>))
    requires WellFormed(s) && |backing| == BackingSize
    ensures WellFormed(r.0) && |r.1| == |addresses|
    ensures r.0.totalAddresses == s.totalAddresses + |addresses|
    decreases |addresses|
  {
    if addresses == [] then (s, [])
    else
      var (before, trace) := Run(s, policy, backing, addresses[..|addresses| - 1]);
      var (after, access) := Step(before, policy, backing, addresses[|addresses| - 1]);
      (after, trace + [access])
  }
}
