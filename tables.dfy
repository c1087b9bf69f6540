/** The TLB, the page table and main memory as values, with the scans the source runs over them. */
module Tables {
  import opened Types

  /** `struct tlbentry`: both page numbers are `unsigned char`; `valid_bit` only ever holds 0 or 1. */
  datatype TlbEntry = TlbEntry(logical: byte, physical: byte, valid: bool)

  /** `struct pagetable_entry`. */
  datatype PageTableEntry = PageTableEntry(physical: byte, valid: bool)

  /** Index of the first element satisfying `p`, or `|s|` if none does: an early-exit `for` scan. */
  function FirstIndex<T>(s: seq<T>, p: T -> bool): (i: nat)
    ensures i <= |s|
    ensures i < |s| ==> p(s[i])
    ensures forall j :: 0 <= j < i ==> !p(s[j])
    decreases |s|
  {
    if |s| == 0 then 0
    else if p(s[0]) then 0
    else 1 + FirstIndex(s[1..], p)
  }

  /** The test of `search_tlb`: same (truncated) logical page and valid bit set. */
  predicate TlbMatches(e: TlbEntry, logical: byte)
  {
    e.logical == logical && e.valid
  }

  /**
   * `search_tlb`: the frame of the lowest-index valid slot holding `logical`,
   * or -1 when there is none.
   */
  function TlbLookup(tlb: seq<TlbEntry>, logical: byte): (r: int)
    ensures -1 <= r < 256
    ensures r == -1 <==> forall i :: 0 <= i < |tlb| ==> !TlbMatches(tlb[i], logical)
    ensures r != -1 ==>
      exists i :: 0 <= i < |tlb| && TlbMatches(tlb[i], logical) && r == tlb[i].physical as int &&
        forall j :: 0 <= j < i ==> !TlbMatches(tlb[j], logical)
  {
    var i := FirstIndex(tlb, e => TlbMatches(e, logical));
    if i < |tlb| then tlb[i].physical as int else -1
  }

  /**
   * `update_tlb`: clears the valid bit of the first slot whose stored frame is `frame`,
   * whether or not that slot is valid; changes nothing when no slot holds `frame`.
   */
  function ClearTlbFrame(tlb: seq<TlbEntry>, frame: byte): (r: seq<TlbEntry>)
    ensures |r| == |tlb|
    ensures forall i :: 0 <= i < |r| ==> r[i] == tlb[i] || r[i] == tlb[i].(valid := false)
    ensures (forall i :: 0 <= i < |tlb| ==> tlb[i].physical != frame) ==> r == tlb
    ensures forall i ::
      (0 <= i < |tlb| && tlb[i].physical == frame && forall j :: 0 <= j < i ==> tlb[j].physical != frame) ==>
        r == tlb[i := tlb[i].(valid := false)]
  {
    var i := FirstIndex(tlb, (e: TlbEntry) => e.physical == frame);
    if i < |tlb| then tlb[i := tlb[i].(valid := false)] else tlb
  }

  /**
   * `update_pagetable`: clears the valid bit of the first entry whose stored frame is
   * `frame`, whether or not that entry is valid; changes nothing when none matches.
   */
  function ClearPageTableFrame(pageTable: seq<PageTableEntry>, frame: byte): (r: seq<PageTableEntry>)
    ensures |r| == |pageTable|
    ensures forall i :: 0 <= i < |r| ==> r[i] == pageTable[i] || r[i] == pageTable[i].(valid := false)
    ensures (forall i :: 0 <= i < |pageTable| ==> pageTable[i].physical != frame) ==> r == pageTable
    ensures forall i ::
      (0 <= i < |pageTable| && pageTable[i].physical == frame &&
       forall j :: 0 <= j < i ==> pageTable[j].physical != frame) ==>
        r == pageTable[i := pageTable[i].(valid := false)]
  {
    var i := FirstIndex(pageTable, (e: PageTableEntry) => e.physical == frame);
    if i < |pageTable| then pageTable[i := pageTable[i].(valid := false)] else pageTable
  }

  /**
   * The `memcpy` of a page fault: frame `frame` of `memory` receives page `page` of
   * `backing`; every other byte is kept.
   */
  function CopyPage(memory: seq<int8>, frame: int, backing: seq<int8>, page: int): (r: seq<int8>)
    requires |memory| == MemorySize && 0 <= frame < PhysicalPages
    requires |backing| == BackingSize && 0 <= page < VirtualPages
    ensures |r| == |memory|
    ensures forall i :: frame * PageSize <= i < frame * PageSize + PageSize ==>
      r[i] == backing[page * PageSize + (i - frame * PageSize)]
    ensures forall i :: 0 <= i < |memory| && !(frame * PageSize <= i < frame * PageSize + PageSize) ==>
      r[i] == memory[i]
  {
    memory[..frame * PageSize] + backing[page * PageSize..page * PageSize + PageSize] +
      memory[frame * PageSize + PageSize..]
  }

  /**
   * What "validity is ignored" means for `update_pagetable`: an earlier entry that holds
   * `frame` but is already invalid (a stale binding, or the initial 255) absorbs the
   * invalidation, and a later valid owner of `frame` stays valid.
   */
  lemma StaleEntryAbsorbsInvalidation(pageTable: seq<PageTableEntry>, frame: byte, stale: nat, owner: nat)
    requires stale < owner < |pageTable|
    requires pageTable[stale] == PageTableEntry(frame, false)
    requires pageTable[owner] == PageTableEntry(frame, true)
    ensures ClearPageTableFrame(pageTable, frame)[owner] == PageTableEntry(frame, true)
    ensures ClearPageTableFrame(pageTable, frame)[stale] == PageTableEntry(frame, false)
  {
    var i := FirstIndex(pageTable, (e: PageTableEntry) => e.physical == frame);
    assert i <= stale;
  }
}
