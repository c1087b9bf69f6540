# Virtual memory manager (part2.c) in Dafny

`part2.c` simulates demand paging for a 20-bit logical address space. It reads a
stream of logical addresses. Each address is split into a 10-bit page number and a
10-bit offset. The page number is looked up first in a 16-slot TLB, which is a circular
array, and then in a 1024-entry page table. On a page fault, the page is copied from a
backing store into one of 256 frames of main memory. While never-used frames remain,
the fault takes the next one (`free_page`). After that, it takes the victim chosen by
the replacement function, which is `FIFO` or the `LRU` stub. The victim is invalidated
first in the TLB, then in the page table. The program reports each physical address
with the byte stored there, and also the hit and fault counts.

The project has seven modules:

- `Types` holds the constants, the C integer widths (`byte`, `int8`, `int32`), `max`
  and the conversion to `unsigned char`.
- `Bitwise` defines C's `&`, `|`, `<<` and `>>` on non-negative integers, with the
  arithmetic facts the address computations need.
- `Address` holds the address split and the physical address.
- `Tables` holds the TLB entries, the page-table entries and the scans over them, as
  functions on sequences.
- `Translation` holds the whole simulator state as a value. `Step` processes one
  address and `Run` processes a sequence of them. They are the specification.
- `TranslationProperties` holds the invariant and the lemmas about `Step` and `Run`.
- `Machine` holds the class `VirtualMemory`. It keeps `tlb`, `page_table` and
  `main_memory` as arrays, and the counters as fields. Its methods run the source's
  loops in place. `Abs()` reads the arrays as sequences and the fields as counters.
  The methods that move counters (`AddToTlb`, `Fifo`, `SelectVictim`, `ClaimFrame`,
  `LoadPage`, `TranslateMiss`, `LocateFrame`, `Translate`, `Run` and the constructor) are
  proved through `Abs()` against `Translation`. The scans and the copy (`SearchTlb`,
  `UpdateTlb`, `UpdatePageTable`, `CopyFrame`) are proved against the `Tables` functions
  on the array contents. The two initialisation loops (`InitPageTable`, `InitTlb`) are
  proved against explicit sequences. `Valid()` is the invariant of `TranslationProperties`.

These quirks of the code are kept. TLB fields are `unsigned char`, so a TLB slot keeps
only the low 8 bits of a page number, and pages `p` and `p + 256` alias there.
`page_table[i].physical = -1` stores 255. `update_tlb` and `update_pagetable` clear the
first entry that holds the frame, whatever its valid bit.

The single-owner property "at most one valid page-table entry per frame" is not claimed,
because it does not hold for this code. The model proves a weaker invariant instead:
- every frame named by a valid page-table entry or by a valid TLB slot has already been
  handed out (it is below `free_page`);
- `free_page == min(page_faults, 256)`;
- under FIFO, `fifo_index` equals `max(page_faults - 256, 0) - 1`; under `LRU` it stays -1;
- `tlbindex == total_addresses - tlb_hits`;
- `tlb_hits + page_faults <= total_addresses`.

Worked example: address 16916 is page 16 with offset 532, since 16916 = 16·1024 + 532.
The model follows the code (`ColdStartScenario`).

## Model

| member | source | states |
|---|---|---|
| Types.Max | part2.c:50-55 | The result is at least each argument and equals one of them. |
| Types.ToByte | part2.c:26-34 | Storing an `int` in an `unsigned char` keeps it modulo 256: 0..255 are kept as they are, and -1 becomes 255. |
| Address.Offset | part2.c:158 | `a & 1023` lies in [0, 1024) and is the Euclidean remainder of `a` by 1024, negative `a` included. |
| Address.Page | part2.c:159 | `(a & 0xFFC00) >> 10` lies in [0, 1024) and equals `(a / 1024) mod 1024` (Euclidean). |
| Address.SplitRecombines | part2.c:158-159 | `page * 1024 + offset` is the low 20 bits of the address. |
| Address.PhysicalAddress | part2.c:201 | `(frame << 10) \| offset` is `frame * 1024 + offset`, lies below `MEMORY_SIZE`, and gives back the frame and the offset by division and remainder. |
| TranslationProperties.SplitOfComposed | part2.c:158-159 | An address equal to `page * 1024 + offset`, with both parts in range, splits into exactly that page and offset. |
| Tables.TlbLookup | part2.c:58-65 | The result is -1 exactly when no slot is valid with this logical page. Otherwise it is the `physical` field of the lowest such slot. |
| Machine.VirtualMemory.SearchTlb | part2.c:58-65 | The early-exit scan of the TLB array returns `TlbLookup` of the array's contents. |
| Tables.ClearTlbFrame | part2.c:68-75 | The first slot holding the frame, valid or not, has only its valid bit cleared. Every other slot is unchanged, and nothing changes when no slot holds the frame. |
| Machine.VirtualMemory.UpdateTlb | part2.c:68-75 | The scan leaves the TLB array equal to `ClearTlbFrame` of its old contents. |
| Tables.ClearPageTableFrame | part2.c:77-84 | The same as `ClearTlbFrame`, for the page table. |
| Machine.VirtualMemory.UpdatePageTable | part2.c:77-84 | The scan leaves the page-table array equal to `ClearPageTableFrame` of its old contents. |
| Tables.StaleEntryAbsorbsInvalidation | part2.c:77-84 | An earlier, already-invalid entry with the same frame takes the invalidation, and a later valid owner of the frame stays valid. |
| Translation.AddToTlb | part2.c:87-92 | Slot `tlbindex % 16` becomes `(logical, physical, valid)`, the other 15 slots are unchanged, `tlbindex` grows by exactly 1, and no other field changes. |
| Machine.VirtualMemory.AddToTlb | part2.c:87-92 | The three field writes and the increment leave the object in the state `Translation.AddToTlb` gives. |
| Translation.Fifo | part2.c:94-99 | A call increments the counter by one and returns the new counter modulo 256, a frame in [0, 256). |
| Machine.VirtualMemory.Fifo | part2.c:94-99 | The method updates `fifo_index` and returns the frame as `Translation.Fifo` says. |
| TranslationProperties.FifoVictimsFrom | part2.c:94-99 | From counter value `c`, the k-th following call returns `(c + 1 + k) mod 256`. |
| TranslationProperties.FifoOrder | part2.c:94-99 | From the initial counter -1, call k + 1 returns `k mod 256` (0, 1, …, 255, 0, …), always within [0, 256). |
| Translation.Lru | part2.c:101-103 | The stub returns a frame in [0, 256). |
| Machine.VirtualMemory.SelectVictim | part2.c:184 | A call through `page_replacement_policy` has the effect of `Replace`: FIFO advances its counter, and the LRU stub changes nothing. |
| Machine.VirtualMemory.InitPageTable | part2.c:132-135 | Every page-table entry becomes invalid with `physical` 255. |
| Machine.VirtualMemory.InitTlb | part2.c:138-140 | Every TLB slot has its valid bit cleared. Its page numbers are left as they were. |
| Machine.VirtualMemory.constructor | part2.c:132-151 | The zero-initialised globals, the two loops and the counter initialisers give exactly `Initial()`, which satisfies the invariant. |
| Translation.Initial | part2.c:130-151 | The initial state is well formed: tables and memory have their C sizes. Its contents are stated by `InitialTables`. |
| TranslationProperties.InitialTables | part2.c:130-151 | In the initial state every page-table entry is `(255, invalid)`, no TLB slot is valid, memory is zero, `tlbindex`, `free_page` and the three statistics are 0, and `fifo_index` is -1. |
| TranslationProperties.InitialInvariant | part2.c:132-151 | The initial state satisfies the invariant, and every one of its 1024 page-table entries is `(255, invalid)`. |
| Translation.Replace | part2.c:184 | The call through `page_replacement_policy` changes only `fifo_index`: FIFO advances it by one and returns the new value modulo 256, and the LRU stub changes nothing and returns frame 2. |
| Translation.Evict | part2.c:184-188 | The victim is the frame `Replace` returns. The TLB becomes `ClearTlbFrame` and the page table `ClearPageTableFrame` of that frame. Apart from the two tables, the state is the one `Replace` leaves. |
| Translation.Claim | part2.c:180-189 | While `free_page < 256` the frame is `free_page` and only `free_page` grows by one. Once all 256 are used, the result is `Evict`. Nothing but `free_page`, `fifo_index` and the two tables changes. |
| Tables.CopyPage | part2.c:191 | The 1024 bytes of the frame become the page's 1024 bytes of the backing store, in order. Every byte outside the frame is unchanged. |
| Translation.PageFault | part2.c:176-194 | The fault is counted, the frame is the one `Claim` gives, the memory is `CopyPage` of the claimed state's memory, `free_page` and `fifo_index` move as `Claim` moves them, `page_table[p]` becomes `(frame, valid)` and the other entries and the TLB are as `Claim` left them. `tlbindex`, `total_addresses` and `tlb_hits` do not change. |
| Translation.Resolve | part2.c:201-202 | The state is unchanged. The access reports the input address, the physical address `frame * 1024 + offset` below `MEMORY_SIZE`, and the byte of main memory there. |
| Translation.Step | part2.c:154-202 | One step keeps the state well formed, counts the address once and reports the input address. Its branches are stated by `StepTlbHit`, `StepPageTableHit`, `StepPageFault` and `StepStatistics`. |
| Translation.Run | part2.c:153-205 | A run keeps the state well formed, reports one access per input address and counts every address once. |
| Machine.VirtualMemory.ClaimFrame | part2.c:180-189 | The next free frame while `free_page < 256`. Otherwise the policy's victim, invalidated in the TLB and then in the page table, as `Claim` says. |
| Machine.VirtualMemory.CopyFrame | part2.c:191 | The frame's 1024 bytes of main memory become the page's bytes of the backing store, and every other byte is unchanged. |
| Machine.VirtualMemory.LoadPage | part2.c:176-194 | The fault branch counts the fault, claims a frame, copies the page and binds the page-table entry, as `PageFault` says. |
| Machine.VirtualMemory.TranslateMiss | part2.c:166-197 | On a TLB miss, a valid page-table entry gives the frame, and otherwise a fault is taken. Either way the mapping is then written into the TLB. |
| Machine.VirtualMemory.LocateFrame | part2.c:154-199 | Counting the address and finding its frame leave the state `Step` gives, just before the final read. |
| Machine.VirtualMemory.Translate | part2.c:154-202 | One pass of the loop body gives exactly the new state, the physical address and the value that `Step` gives, and it keeps the invariant. |
| Machine.VirtualMemory.Run | part2.c:153-205 | The loop over all input addresses gives exactly the state and the trace of `Translation.Run`, and it keeps the invariant. |
| TranslationProperties.StepStatistics | part2.c:154-177 | `total_addresses` grows by 1. `tlb_hits` grows exactly when `search_tlb` succeeds. `page_faults` grows exactly on a TLB miss whose page-table entry is invalid. |
| TranslationProperties.StepOutput | part2.c:201-202 | Each step reports its input address, a physical address below `MEMORY_SIZE` with the same offset, and the byte of main memory at that address. |
| TranslationProperties.StepTlbHit | part2.c:162-165 | A TLB hit counts the hit and changes nothing else. The frame comes from the TLB. |
| TranslationProperties.StepPageTableHit | part2.c:166-170 | A miss with a valid page-table entry uses that entry's frame and inserts the mapping into the TLB. Nothing else changes. |
| TranslationProperties.StepMissInsertsTlb | part2.c:197 | Every TLB miss, with or without a fault, writes `(page mod 256, frame, valid)` into slot `tlbindex % 16`. |
| TranslationProperties.StepMissKeepsOtherSlots | part2.c:197 | After a miss, every valid slot other than the one written is the same as before. |
| TranslationProperties.StepPageFault | part2.c:176-202 | A fault copies the page into its frame and leaves the other frames alone. On the replacement path the victim is invalidated in the TLB, then in the page table. `page_table[p]` becomes `(frame, valid)`, the TLB receives the mapping, and the value read is the backing byte at the low 20 bits of the address. |
| TranslationProperties.StepFaultFrame | part2.c:180-194 | Free frames come first: a fault takes frame `free_page` and advances it while `free_page < 256`. After that, FIFO gives frame `(faults - 256) mod 256` and the LRU stub gives frame 2. The page table binds the page to that frame. |
| TranslationProperties.PageFaultFrame | part2.c:176-194 | The frame taken is `NextFaultFrame` of the fault count, and the page table binds the page to it. While `free_page < 256` the frame is `free_page`, `free_page` grows by one and `fifo_index` is kept. After that, `free_page` stays at 256, FIFO advances `fifo_index` by one and the LRU stub leaves it alone. |
| TranslationProperties.StepFaultIsPageFault | part2.c:166-202 | An unfolding lemma: it spells out the fault branch of `Step` as counting the address, then `PageFault`, then the TLB insert, then the read. |
| TranslationProperties.FirstFault | part2.c:180-202 | The first fault takes frame 0. Its physical address is the offset, and its value is the backing byte at the low 20 bits of the address. |
| TranslationProperties.StepPreservesInvariant | part2.c:154-202 | Every step keeps the invariant. |
| TranslationProperties.AddToTlbPreservesInvariant | part2.c:87-92 | A TLB insert of a frame already handed out restores the invariant after a counted miss. |
| TranslationProperties.PageFaultKeepsConsistent | part2.c:176-194 | A fault keeps the counting and handed-out-frame facts, and hands out its own frame. |
| TranslationProperties.FaultPreservesInvariant | part2.c:176-197 | A step that faults keeps the invariant. |
| TranslationProperties.RunPreservesInvariant | part2.c:153-205 | Every run keeps the invariant. |
| TranslationProperties.RunExtend | part2.c:153-205 | An unfolding lemma for `Run`: running one more address is running the prefix and then one step, with that step's access appended to the trace. |
| TranslationProperties.RunStatistics | part2.c:146-177 | A run counts every address once, never lowers the hit or fault counts, and ends with `tlb_hits + page_faults <= total_addresses`. |
| TranslationProperties.RunTrace | part2.c:204 | The trace has one entry per input address, in input order. |
| TranslationProperties.TraceExtends | part2.c:204 | Appending the access of the last address to a trace that matches the other addresses in order gives a trace that matches all of them. |
| TranslationProperties.MissThenHit | part2.c:58-92 | After a miss on `a`, an address whose page has the same low 8 bits hits the TLB at once, with the frame that `a` got. |
| TranslationProperties.ColdStartScenario | part2.c:153-202 | From the initial state, address 16916 (page 16, offset 532) faults into frame 0 at physical address 532 and reads backing byte 16916. Any address on page 16 that comes next is a TLB hit. |
| TranslationProperties.ColdStateFaults | part2.c:130-151 | The initial state satisfies the invariant, has no hits and no faults, and every address faults in it. |
| TranslationProperties.ColdStart | part2.c:153-202 | The same outcome for 16916 from any state that satisfies the invariant, has no hits or faults yet, and faults on that address. |
| TranslationProperties.FaultThenAliasHit | part2.c:58-92 | After a first fault on `a`, an address `b` with the same offset whose page has the same low 8 bits is a TLB hit. It takes no further fault, its physical address is the offset, and the byte it reads is the backing byte of `a`. |
| TranslationProperties.TlbAliasScenario | part2.c:28-29 | From the initial state, address 45056 (page 44) faults and address 307200 (page 300) is then a TLB hit on page 44's slot. No second fault is taken, the physical address is 0, and the byte returned is backing byte 45056, which is page 44's. |
| TranslationProperties.TlbAlias | part2.c:28-29 | The same outcome for 45056 then 307200 from any state that satisfies the invariant, has no hits or faults yet, and faults on 45056. |

## Left out

- Command-line handling (part2.c:107-121): the argument count check, `atoi(argv[4])` and the usage errors. The replacement policy is a constructor parameter instead.
- File I/O (part2.c:123-128, 153-155): `open`, `mmap`, `fopen`, `fgets` and the `atoi` parse of each line. The backing store is a read-only `seq<int8>`, and the input is a sequence of `int32` values.
- Machine.VirtualMemory.Translate: requires a backing store of 1024·1024 bytes, one page per logical page. The source maps only `MEMORY_SIZE` bytes, 256 pages (part2.c:125), yet reads pages up to 1023 (part2.c:191). What C does on a read past the mapping is not modelled.
- `printf` output (part2.c:178, 204, 206-210): the per-address line becomes the returned `Access` trace. The "Accessing logical" line and the final report are not modelled.
- The floating-point fault and hit rates (part2.c:208, 210), including their division by zero when the input is empty.
- A counter-based LRU: the file has only the constant stub (part2.c:101-103), and that stub is what the model has.
- Machine.VirtualMemory.Run: the C `int` counters (`total_addresses`, `tlb_hits`, `page_faults`, `tlbindex`, `fifo_index`) are unbounded integers here. Their 32-bit overflow after 2^31 addresses, which would make `tlbindex % TLB_SIZE` negative, is not modelled.
- `valid_bit` is an `int` that the code only ever sets to 0 or 1, so it is a `bool` here.
- The single-owner invariant (one valid page-table entry per frame) is not stated, because the code does not keep it. `StaleEntryAbsorbsInvalidation` shows why.
