# Proj4 virtual-memory manager, modelled in Dafny

The `Proj4` programs simulate demand paging on a 16-bit logical address
space: 256 pages of 256 bytes, a 16-entry TLB filled in FIFO order, a
256-entry page table and a backing store of 65,536 bytes. For every input
integer, the program does the following:

1. It masks the integer to 16 bits and splits it into page and offset.
2. It scans the TLB.
3. On a TLB miss, it reads the page table.
4. On a page-table miss, it copies the page from the backing store into a frame and binds the page to it.
5. After any TLB miss, it inserts the mapping into the TLB.
6. It reads the byte at `frame * 256 + offset`.

At the end, the program prints the number of addresses, page faults and TLB hits.

There are two variants:

- **`JayRoy_P4.c` (the fixed variant).** It has 256 frames. Frames are handed out by a bump cursor and are never reclaimed, and `-1` in the page table means "not in memory".
- **`JayRoy_P4_Part2.c` (the LRU variant).** It has `frame_count` frames, from 1 to 256, with 128 as the default. It uses the bump cursor while frames are free. After that it evicts the least recently used frame. The page that held that frame is marked invalid and its TLB slot is cleared.

The project has four modules:

- **`Paging`** (`paging.dfy`) holds what both variants share:
  - the constants;
  - the decoding of an address (`Decode`);
  - the per-address output line (`Translation`) and the final `Report`;
  - the page-copy loop (`CopyPage`), and the predicate that a frame holds a page's bytes.
- **`Tlb`** (`tlb.dfy`) is the TLB:
  - the linear scan (`Find`, and the loop `Lookup`);
  - the FIFO insert and its cursor;
  - the eviction's clear-first-match loop (`Invalidate`, `InvalidatePage`);
  - the "one valid slot per page" property (`Unique`).
- **`FixedVm`** (`fixed_vm.dfy`) and **`LruVm`** (`lru_vm.dfy`) are the two programs. Each is modelled twice:
  - **As values.** A `Machine` datatype holds the global state. `Next` is what the main loop's body does to it for one address, and `Run` is the whole loop. The properties are lemmas about these functions. The central one is the invariant `Inv`, which `NextInv` proves every address preserves:
    - the page table binds distinct pages to distinct frames;
    - the frames are below the bump cursor, and the cursor never passes the frame count;
    - each bound frame holds its page's bytes;
    - the TLB has at most one valid slot per page, and every valid slot agrees with the page table;
    - the counters are consistent;
    - the FIFO cursor stays in [0, 16).
  - **As a class.** `Simulator` keeps the global arrays as `array` fields and the cursors and counters as mutable fields. Its methods are the C loops: the TLB scan, the LRU scan, the owner scan, the eviction, the page copy and the main loop. Each method is proved to change the arrays exactly as the value model says. `Step` ensures `(State(), t) == Next(old(State()), store, raw)` and keeps `Valid()`, which is `Inv` of the arrays.

  `Simulate` is the program as a whole. It validates the frame count (LRU variant), runs the set-up, processes the stream and reports the lines and counters.

Some consequences of the LRU invariant:

- **The "no owner" branch is dead.** Once every frame has been handed out, each frame is held by exactly one valid page. So the eviction never takes the `old_page == -1` branch (`NextEvicts`).
- **Clearing the first match is enough.** Since at most one valid TLB slot names a page, clearing the first match removes every TLB slot for the evicted page.
- **Stale TLB entries are never read.** An invalidated page-table entry keeps its old frame number, but its TLB slot has been cleared, so that frame number is never used.

## Model

| member | source | states |
|---|---|---|
| Paging.Decode | Proj4/JayRoy_P4_Part2.c:154-158 | The masked address is in [0, 65536) and congruent to the input modulo 2^16. Page and offset are each in [0, 256), and `page * 256 + offset` is the masked address. |
| Paging.DecodeWraps | Proj4/JayRoy_P4.c:84-88 | Decoding depends only on the input modulo 2^16, and a 16-bit input decodes to itself. |
| Paging.PageBytes | Proj4/JayRoy_P4.c:112-117 | The 256 bytes read for a page are the backing-store bytes at `page * 256 + k`. |
| Paging.LoadFrame | Proj4/JayRoy_P4_Part2.c:218-221 | After the copy, the frame's 256 bytes are the page, and every byte outside the frame is unchanged. |
| Paging.CopyPage | Proj4/JayRoy_P4_Part2.c:219-221 | The byte-copy loop leaves memory equal to `LoadFrame` of the old memory. |
| Paging.HoldsRead | Proj4/JayRoy_P4_Part2.c:239-242 | Reading offset `k` of a frame that holds a page gives the backing-store byte at `page * 256 + k`, within memory. |
| Paging.LoadFrameKeeps | Proj4/JayRoy_P4_Part2.c:218-221 | Loading one frame leaves every other frame holding the page it held. |
| Tlb.FindFrom | Proj4/JayRoy_P4.c:94-101 | The scan result is a valid slot naming the page, with no such slot before it; a miss means no valid slot names the page. |
| Tlb.FindHitsIff | Proj4/JayRoy_P4.c:94-101 | The scan hits if and only if some valid slot names the page. |
| Tlb.Lookup | Proj4/JayRoy_P4_Part2.c:164-173 | The scan loop with `break` returns exactly `Find`: the first valid slot naming the page, or a miss. |
| Tlb.InsertOnMiss | Proj4/JayRoy_P4.c:132-136 | Inserting a page that missed keeps at most one valid slot per page, and the page is then found at the slot written. |
| Tlb.InvalidateClears | Proj4/JayRoy_P4_Part2.c:208-214 | With at most one valid slot per page, clearing the first match leaves no valid slot for the page, changes nothing else and keeps uniqueness. |
| Tlb.InvalidatePage | Proj4/JayRoy_P4_Part2.c:209-214 | The clear-first-match loop leaves the TLB equal to `Invalidate` of the old TLB. |
| Tlb.Insert | Proj4/JayRoy_P4.c:132-135 | Definition of the FIFO write: slot `tlb_index` becomes `(page, frame, valid)`; the length is kept. It is the TLB update that `Step` is proved to refine, and `InsertOnMiss` is its invariant. |
| Tlb.Advance | Proj4/JayRoy_P4.c:136 | The cursor after an insert stays in [0, 16): the next slot, wrapping from 15 to 0. |
| Tlb.AdvanceCounts | Proj4/JayRoy_P4_Part2.c:235 | A cursor that advances once per TLB miss stays equal to the number of misses modulo 16. |
| Tlb.Invalidate | Proj4/JayRoy_P4_Part2.c:209-214 | Definition of the clear-first-match loop: every slot keeps its page and frame, and exactly the first valid slot naming the page loses its valid flag. |
| FixedVm.Init | Proj4/JayRoy_P4.c:68-76 | The initial state has 16 TLB slots, 256 page-table entries and 65,536 bytes of memory. |
| FixedVm.InitInv | Proj4/JayRoy_P4.c:68-76 | The initial state (all entries -1, all slots invalid, counters 0) satisfies the invariant. |
| FixedVm.FreeFrameBound | Proj4/JayRoy_P4.c:106-121 | `page_faults == free_frame <= 256`, and when a page faults a frame is still free. |
| FixedVm.Hit | Proj4/JayRoy_P4.c:94-101 | Definition of the TLB-hit path on the state: the address and the hit are counted, and nothing else changes. It is part of `Next`, which `Step` is proved to refine. |
| FixedVm.Refill | Proj4/JayRoy_P4.c:104-107 | Definition of the page-table-hit path: the address is counted, and the mapping is inserted at the FIFO cursor, which advances. It is part of `Next`. |
| FixedVm.Faulted | Proj4/JayRoy_P4.c:108-136 | Definition of the fault path: the fault is counted. The page is copied into frame `free_frame`, which is bound in the page table and inserted into the TLB, and both cursors advance. It is part of `Next`. |
| FixedVm.Next | Proj4/JayRoy_P4.c:80-147 | Definition of one loop iteration on the state (hit, refill or fault), with the line it prints. `Simulator.Step` is proved to refine it, and `NextInv`, `NextTranslates`, `NextCounts` and `NextMaps` state its properties. |
| FixedVm.FaultFrames | Proj4/JayRoy_P4.c:120-129 | Binding an unmapped page to `free_frame` keeps the frames distinct and below the cursor, and adds exactly that page to the mapped pages. |
| FixedVm.FaultLoaded | Proj4/JayRoy_P4.c:120-129 | After a fault, every mapped page's frame holds its bytes. |
| FixedVm.MissTlb | Proj4/JayRoy_P4.c:132-136 | A FIFO insert after a miss keeps one valid slot per page and agreement with the page table. |
| FixedVm.FaultedInv | Proj4/JayRoy_P4.c:106-136 | The page-fault path preserves the invariant. |
| FixedVm.NextInv | Proj4/JayRoy_P4.c:80-137 | Every address preserves the invariant. This covers: distinct frames below `free_frame`; `free_frame == page_faults == number of mapped pages`; loaded frames; a unique TLB that agrees with the page table; the counters; and the FIFO cursor in [0, 16) equal to the miss count modulo 16. |
| FixedVm.NextTranslates | Proj4/JayRoy_P4.c:140-143 | The output's logical address is the masked input. The physical address is the page's (now mapped) frame times 256 plus the offset, in [0, 65536). The byte read is the backing-store byte at the logical address. |
| FixedVm.NextCounts | Proj4/JayRoy_P4.c:81-110 | Each address counts once. A TLB hit is counted exactly when a valid slot names the page, and a fault exactly when the entry is -1. The FIFO cursor advances exactly on a TLB miss. |
| FixedVm.NextMaps | Proj4/JayRoy_P4.c:120-129 | Entries are written only while -1 and are never reset. A faulting page gets frame number `page_faults` (frames go out 0, 1, 2, ... in the order of first faults) and the cursor moves on. The mapped pages grow by the page used. |
| FixedVm.RunMaps | Proj4/JayRoy_P4.c:106-129 | Over a run, the mapped pages grow by exactly the set of pages referred to. |
| FixedVm.FaultsArePages | Proj4/JayRoy_P4.c:106-129 | From the initial state, the page-fault count after a run is the number of distinct pages referred to, hence at most 256: each page faults once. |
| FixedVm.Run | Proj4/JayRoy_P4.c:80-148 | The main loop keeps the invariant and emits one line per address. |
| FixedVm.RunCons | Proj4/JayRoy_P4.c:80-148 | A run that starts with one address is one step followed by the run of the rest. |
| FixedVm.RunSnoc | Proj4/JayRoy_P4.c:80-148 | Running one more address is one more `Next` after the run, with its line appended. |
| FixedVm.RunPrefix | Proj4/JayRoy_P4.c:80-148 | The run of the first k+1 addresses is the run of the first k followed by one step. |
| FixedVm.RunTranslates | Proj4/JayRoy_P4.c:140-143 | Every line of a run is the masked input, a physical address below 65,536 and the backing-store byte at the logical address. The run counts every address. |
| FixedVm.Simulator.constructor | Proj4/JayRoy_P4.c:68-76 | The set-up loops leave the arrays in the initial state, which is valid. |
| FixedVm.Simulator.ServeMiss | Proj4/JayRoy_P4.c:104-137 | The miss path (page-table hit, or fault with bump allocation, page copy and binding, then the FIFO insert) yields `Refill` or `Faulted` of the old state. |
| FixedVm.Simulator.Step | Proj4/JayRoy_P4.c:80-147 | One loop iteration changes the arrays and counters exactly as `Next`, keeps the invariant, and reads the backing-store byte of the logical address. |
| FixedVm.Simulator.ProcessStream | Proj4/JayRoy_P4.c:80-148 | The main loop's final state and output lines are those of `Run`. |
| FixedVm.Simulate | Proj4/JayRoy_P4.c:68-155 | From the set-up, the lines are `Run`'s and each reads the store byte of its logical address. The address count is the stream length, and the fault count is the number of distinct pages (at most 256). The TLB-hit count is the one `Run` ends with, and `tlb_hits + page_faults <= total_addresses`. |
| LruVm.FrameCountArg | Proj4/JayRoy_P4_Part2.c:87-95 | The frame count is accepted if and only if no count is given (giving 128) or a count in [1, 256] is given (giving that count); otherwise it is an error. |
| LruVm.LruScan | Proj4/JayRoy_P4_Part2.c:55-67 | The scan's pair is (0, INT_MAX) or a position with its value. The value is at most every element and strictly below every element before the position. |
| LruVm.LruScanFirstMin | Proj4/JayRoy_P4_Part2.c:55-67 | If some element is below INT_MAX, the result is the first index holding the minimum; otherwise it is frame 0. |
| LruVm.Simulator.FindLruFrame | Proj4/JayRoy_P4_Part2.c:55-67 | The loop returns `LruFrame` of the last-use array. |
| LruVm.LruVictimLeast | Proj4/JayRoy_P4_Part2.c:55-67 | Under the invariant, and while the clock is a C `int` (at most INT_MAX), the LRU frame is in [0, frame_count), its last-use time is minimal, and ties go to the lowest frame. |
| LruVm.OwnerFrom | Proj4/JayRoy_P4_Part2.c:70-77 | The result is -1 when no valid entry holds the frame; otherwise it is the lowest page whose valid entry holds it. |
| LruVm.Simulator.FindPageUsingFrame | Proj4/JayRoy_P4_Part2.c:70-77 | The loop with early return returns `OwnerOf` of the page table. |
| LruVm.OwnerOfIff | Proj4/JayRoy_P4_Part2.c:70-77 | Under the invariant, the owner lookup returns `page` if and only if `page`'s entry is valid and holds the frame. |
| LruVm.Init | Proj4/JayRoy_P4_Part2.c:131-143 | The initial state (all frames -1, all entries and slots invalid) satisfies the invariant for every backing store. |
| LruVm.FramesInUseCard | Proj4/JayRoy_P4_Part2.c:194-228 | With an injective page table, there are as many frames in use as valid pages. |
| LruVm.ValidPagesBound | Proj4/JayRoy_P4_Part2.c:194-215 | Valid pages number `free_frame <= frame_count`, and every handed-out frame is held by some valid page. |
| LruVm.ResidentBound | Proj4/JayRoy_P4_Part2.c:194-215 | Never more resident pages than frames. |
| LruVm.FrameForBound | Proj4/JayRoy_P4_Part2.c:164-200 | The frame an address resolves to, and the allocation victim, are in [0, frame_count). |
| LruVm.Hit | Proj4/JayRoy_P4_Part2.c:164-173 | Definition of the TLB-hit path: the address and the hit are counted, the clock ticks, and the frame is stamped with the new time. It is part of `Next`, which `Step` is proved to refine. |
| LruVm.Refill | Proj4/JayRoy_P4_Part2.c:176-181 | Definition of the page-table-hit path: the frame is stamped, and the mapping is inserted at the FIFO cursor (lines 231-235). It is part of `Next`. |
| LruVm.Victim | Proj4/JayRoy_P4_Part2.c:194-200 | Definition of the frame a fault takes: `free_frame` while frames are free, else the `find_lru_frame` result. Its bound is `FrameForBound`, and its minimality is `LruVictimLeast`. |
| LruVm.Allocate | Proj4/JayRoy_P4_Part2.c:193-216 | Definition of allocation on the state: bump the cursor, or unbind the LRU frame's owner and clear its TLB slot. `Simulator.AllocateFrame` is proved to refine it, and `AllocateFrees` states what it leaves. |
| LruVm.Faulted | Proj4/JayRoy_P4_Part2.c:182-235 | Definition of the fault path: the fault is counted and a frame allocated. The page is copied in, bound and stamped, and the mapping is inserted into the TLB. It is part of `Next`. |
| LruVm.Serve | Proj4/JayRoy_P4_Part2.c:163-236 | Definition of the state after the lookup: hit, refill or fault. `Simulator.Resolve` is proved to refine it. |
| LruVm.Next | Proj4/JayRoy_P4_Part2.c:149-246 | Definition of one loop iteration on the state, with the line it prints. `Simulator.Step` is proved to refine it, and `NextInv`, `NextTranslates`, `NextCounts`, `NextBumps` and `NextEvicts` state its properties. |
| LruVm.AllocateFrees | Proj4/JayRoy_P4_Part2.c:193-216 | After allocation, no valid page holds the victim frame. There is one fewer valid page than frames handed out. The other valid entries are unchanged, and the TLB is unique and agrees with the page table. |
| LruVm.BindFresh | Proj4/JayRoy_P4_Part2.c:223-225 | Binding an unmapped page to a frame no valid page holds keeps the frames distinct and adds exactly that page. |
| LruVm.FaultTable | Proj4/JayRoy_P4_Part2.c:193-225 | After a fault, the page table is injective, its frames are below the cursor, and there are as many valid pages as frames handed out. |
| LruVm.FaultTlb | Proj4/JayRoy_P4_Part2.c:203-235 | After eviction and the FIFO insert, the TLB has one valid slot per page and agrees with the page table. |
| LruVm.FaultLoaded | Proj4/JayRoy_P4_Part2.c:218-225 | After a fault, every valid page's frame holds its bytes; only the victim frame was overwritten. |
| LruVm.TouchCounted | Proj4/JayRoy_P4_Part2.c:150-235 | Ticking the clock, stamping one frame and counting a hit or a miss keeps the counters, the clock bound and the cursor consistent. |
| LruVm.NextInvHit | Proj4/JayRoy_P4_Part2.c:164-173 | A TLB hit preserves the invariant. |
| LruVm.NextInvRefill | Proj4/JayRoy_P4_Part2.c:176-181 | A page-table hit after a TLB miss preserves the invariant. |
| LruVm.NextInvFault | Proj4/JayRoy_P4_Part2.c:182-235 | A page fault, with bump allocation or eviction, preserves the invariant. |
| LruVm.NextInv | Proj4/JayRoy_P4_Part2.c:164-236 | Every address preserves the invariant: one valid TLB slot per page; valid page-table entries hold distinct frames below `free_frame <= frame_count`; TLB entries agree with the page table; frames hold their pages; counters, clock and FIFO cursor consistent. |
| LruVm.NextFrame | Proj4/JayRoy_P4_Part2.c:176-228 | After an address, its page is valid and bound to the frame the translation used, which is below `frame_count`. |
| LruVm.NextTranslates | Proj4/JayRoy_P4_Part2.c:239-242 | The physical address is the page's frame times 256 plus the offset, below `frame_count * 256`. The byte read is the backing-store byte at the logical address. |
| LruVm.NextCounts | Proj4/JayRoy_P4_Part2.c:150-235 | Each address counts once and ticks the clock. A hit is counted exactly when a valid slot names the page, and a fault exactly when the entry is invalid. The cursor moves exactly on a miss. Exactly the used frame is stamped with the new time. |
| LruVm.NextKeeps | Proj4/JayRoy_P4_Part2.c:176-181 | An address whose page is valid changes neither the page table, nor memory, nor the bump cursor, nor the fault count. |
| LruVm.NextBumps | Proj4/JayRoy_P4_Part2.c:194-198 | A fault while frames are free binds the page to `free_frame` and increments it, never past `frame_count`; nothing else in the page table changes. |
| LruVm.NextEvicts | Proj4/JayRoy_P4_Part2.c:199-215 | A fault with every frame in use takes the LRU frame. Its owner exists, is not the faulting page, and is marked invalid. The faulting page takes the frame, and no other page-table entry changes. In the TLB, the owner's slot loses its valid flag, slot `tlb_index` gets the new mapping, and every other slot is unchanged. Memory is the old memory with the page loaded into the frame, and `free_frame` stays. |
| LruVm.SingleFrameResident | Proj4/JayRoy_P4_Part2.c:194-228 | With one frame, the page just used is the only resident page. |
| LruVm.SingleFrameThrashes | Proj4/JayRoy_P4_Part2.c:176-184 | With one frame, each change of page faults. |
| LruVm.Run | Proj4/JayRoy_P4_Part2.c:149-247 | The main loop keeps the invariant and emits one line per address. |
| LruVm.RunCons | Proj4/JayRoy_P4_Part2.c:149-247 | A run that starts with one address is one step followed by the run of the rest. |
| LruVm.RunSnoc | Proj4/JayRoy_P4_Part2.c:149-247 | Running one more address is one more `Next` after the run, with its line appended. |
| LruVm.RunPrefix | Proj4/JayRoy_P4_Part2.c:149-247 | The run of the first k+1 addresses is the run of the first k followed by one step. |
| LruVm.RunTranslates | Proj4/JayRoy_P4_Part2.c:239-242 | Every line of a run is the masked input, a physical address below `frame_count * 256`, and the store byte at the logical address. The frame count is kept and every address is counted. |
| LruVm.Simulator.constructor | Proj4/JayRoy_P4_Part2.c:112-143 | The allocation and set-up loops leave the arrays in `Init(frame_count)`, which is valid. |
| LruVm.Simulator.AllocateFrame | Proj4/JayRoy_P4_Part2.c:193-216 | The bump-or-LRU allocation, with unbind and TLB clear, returns `Victim` and leaves the page table, TLB and cursor as `Allocate` says. |
| LruVm.Simulator.ServeFault | Proj4/JayRoy_P4_Part2.c:182-228 | The fault path counts the fault, allocates, copies the page into the frame, binds the page and stamps the frame. |
| LruVm.Simulator.ServeMiss | Proj4/JayRoy_P4_Part2.c:176-236 | The miss path yields `Refill` or `Faulted` of the old state. |
| LruVm.Simulator.ServeHit | Proj4/JayRoy_P4_Part2.c:164-173 | On a TLB hit, the hit is counted and the frame is stamped (`Hit`). |
| LruVm.Simulator.Resolve | Proj4/JayRoy_P4_Part2.c:163-236 | The TLB scan followed by the hit or miss path yields `Serve` of the old state and returns the resolved frame. |
| LruVm.Simulator.Step | Proj4/JayRoy_P4_Part2.c:149-246 | One iteration changes the arrays, cursors, clock and counters exactly as `Next`, keeps the invariant, and reads the backing-store byte of the logical address. |
| LruVm.Simulator.ProcessStream | Proj4/JayRoy_P4_Part2.c:148-247 | The main loop's final state and lines are those of `Run`. |
| LruVm.Simulate | Proj4/JayRoy_P4_Part2.c:86-254 | The result is an error if and only if the frame count is rejected. Otherwise the lines are `Run`'s from the initial state, each reads the store byte of its logical address, and every address is counted. The fault and hit counts are those `Run` ends with, and `tlb_hits + page_faults <= total_addresses`. |

## Left out

- **File I/O.** Opening and reading the addresses file and `BACKING_STORE.bin` are left out:
  - The input stream is a parameter, a sequence of 32-bit ints.
  - The backing store is a parameter of 65,536 signed bytes.
  - `fseek`/`fread` become the slice `PageBytes`.
  - The `argc` errors and the file-open errors are left out.
- **Short reads.** The `fread` result is never checked in either program, so a short read is not modelled: the model follows the code, which reads whatever the store holds.
- **Output formatting.** `printf` is left out. Each output line is returned as a `Translation` (logical, physical, value), and the final counters as a `Report`.
- **Statistics rates.** The page-fault and TLB-hit rates are floating-point divisions, undefined for zero addresses, and are left out. The counters they use are modelled.
- **Allocation failure.** The `malloc` failure paths are left out. Memory is taken to be available.
- **Memory contents at start.** The LRU variant's `malloc`ed physical memory is uninitialised. The model starts it at zeros. No byte is read before its frame is loaded, so no result depends on this.
- FixedVm.Simulate: counters are unbounded integers, so C `int` overflow after 2^31 addresses is not modelled.
- LruVm.Simulate: counters and the clock are unbounded integers, so C `int` overflow after 2^31 addresses is not modelled.
- LruVm.LruVictimLeast: it requires the clock to be at most INT_MAX. Beyond that the C clock overflows, which the model does not follow (see the `LruVm.Simulate` line).
- LruVm.FrameCountArg: it takes what `atoi` produced, as an optional int, rather than the argument text. `atoi`'s parsing is not modelled.
- **Other repository files.** The rest of the repository (the process, thread and semaphore exercises, the timing utility, the database programs and the Python linter) is not part of this model.
