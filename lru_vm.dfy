/**
 * The general variant of the simulator: `frameCount` frames (1 to 256),
 * handed out by a bump cursor while any are free and then reclaimed from
 * the least recently used frame. Page-table entries carry a valid flag;
 * `lastUsed` holds, per frame, the clock value of its latest use.
 *
 * `Machine` is the state as a value and `Next` what one address does to
 * it; `Simulator` keeps the same state in arrays, and its `Step` is proved
 * to do exactly what `Next` says.
 */
module LruVm {
  import opened Paging
  import opened Tlb

  /** Frames used when no frame count is given. */
  const DEFAULT_FRAME_COUNT: int := 128
  /** The largest frame count accepted. */
  const MAX_FRAMES: int := 256
  /** What the eviction's owner lookup returns when no page holds the frame. */
  const NO_PAGE: int := -1

  datatype PageTableEntry = PageTableEntry(frame: int, valid: bool)

  /** An entry of the zero-initialised global page table: not valid. */
  const Unmapped: PageTableEntry := PageTableEntry(0, false)

  datatype Machine = Machine(
    frameCount: int,
    tlb: seq<Entry>,
    tlbIndex: int,
    pageTable: seq<PageTableEntry>,
    lastUsed: seq<int>,
    memory: seq<SByte>,
    freeFrame: int,
    currentTime: int,
    totalAddresses: int,
    tlbHits: int,
    pageFaults: int)

  /**
   * The command line's frame count: none given means 128; a given one
   * (what `atoi` made of the argument, 0 for text that is not a number)
   * must lie in [1, 256], else the program stops with an error.
   */
  function FrameCountArg(arg: Option<int>): (r: Result<int>)
    ensures r.Ok? <==> arg.None? || 1 <= arg.value <= MAX_FRAMES
    ensures r.Ok? ==> 1 <= r.value <= MAX_FRAMES
    ensures r.Ok? && arg.Some? ==> r.value == arg.value
    ensures arg.None? ==> r == Ok(DEFAULT_FRAME_COUNT)
  {
    match arg
    case None => Ok(DEFAULT_FRAME_COUNT)
    case Some(n) =>
      if n <= 0 || n > MAX_FRAMES then Err("Error: Frame count must be between 1 and 256") else Ok(n)
  }

  // ---------------------------------------------------------------------
  // The two scans of the eviction path
  // ---------------------------------------------------------------------

  /**
   * The LRU scan over `lastUsed[..|s|]`: the pair (lru_frame, min_time)
   * after the loop has seen every element of `s`, starting from
   * (0, INT_MAX) and taking an element only when it is strictly smaller.
   * Unless no element is below INT_MAX, the result is the first index
   * holding the minimum.
   */
  function LruScan(s: seq<int>): (r: (int, int))
    ensures |s| > 0 ==> 0 <= r.0 < |s|
    ensures r.1 == INT_MAX ==> r.0 == 0
    ensures r.1 == INT_MAX || (0 <= r.0 < |s| && r.1 == s[r.0])
    ensures forall j :: 0 <= j < |s| ==> r.1 <= s[j]
    ensures forall j :: 0 <= j < r.0 && j < |s| ==> r.1 < s[j]
    ensures r.1 <= INT_MAX
  {
    if s == [] then (0, INT_MAX)
    else
      var (lru, minTime) := LruScan(s[..|s| - 1]);
      if s[|s| - 1] < minTime then (|s| - 1, s[|s| - 1]) else (lru, minTime)
  }

  /**
   * When some element is below INT_MAX, the scan returns the first index
   * holding the minimum: nothing is smaller, and everything before it is
   * larger. Otherwise it returns frame 0.
   */
  lemma LruScanFirstMin(s: seq<int>)
    ensures (forall j :: 0 <= j < |s| ==> s[j] >= INT_MAX) ==> LruScan(s) == (0, INT_MAX)
    ensures (exists j :: 0 <= j < |s| && s[j] < INT_MAX) ==>
      var f := LruScan(s).0;
      0 <= f < |s| && LruScan(s).1 == s[f] &&
      (forall j :: 0 <= j < |s| ==> s[f] <= s[j]) &&
      (forall j :: 0 <= j < f ==> s[f] < s[j])
  {
    var r := LruScan(s);
    if exists j :: 0 <= j < |s| && s[j] < INT_MAX {
      var j :| 0 <= j < |s| && s[j] < INT_MAX;
      assert r.1 <= s[j];
    } else if |s| > 0 {
      assert r.1 <= s[0];
    }
  }

  /** The frame `find_lru_frame` picks. */
  function LruFrame(lastUsed: seq<int>): int
  {
    LruScan(lastUsed).0
  }

  /** The first page at or after `from` whose valid entry holds `frame`, or -1. */
  function OwnerFrom(pageTable: seq<PageTableEntry>, frame: int, from: nat): (r: int)
    requires from <= |pageTable|
    ensures r == NO_PAGE || (from <= r < |pageTable| && pageTable[r].valid && pageTable[r].frame == frame)
    ensures r == NO_PAGE ==> forall p :: from <= p < |pageTable| ==> !(pageTable[p].valid && pageTable[p].frame == frame)
    ensures r != NO_PAGE ==> forall p :: from <= p < r ==> !(pageTable[p].valid && pageTable[p].frame == frame)
    decreases |pageTable| - from
  {
    if from == |pageTable| then NO_PAGE
    else if pageTable[from].valid && pageTable[from].frame == frame then from
    else OwnerFrom(pageTable, frame, from + 1)
  }

  /** The page `find_page_using_frame` returns. */
  function OwnerOf(pageTable: seq<PageTableEntry>, frame: int): int
  {
    OwnerFrom(pageTable, frame, 0)
  }

  // ---------------------------------------------------------------------
  // The invariant
  // ---------------------------------------------------------------------

  /** The pages whose entry is valid. */
  ghost function ValidPages(pageTable: seq<PageTableEntry>): set<int>
  {
    set p | 0 <= p < |pageTable| && pageTable[p].valid
  }

  /** No two valid entries hold the same frame. */
  ghost predicate Injective(pageTable: seq<PageTableEntry>)
  {
    forall p, q ::
      0 <= p < |pageTable| && 0 <= q < |pageTable| && pageTable[p].valid && pageTable[q].valid &&
      pageTable[p].frame == pageTable[q].frame
      ==> p == q
  }

  /** Valid entries hold distinct frames below the bump cursor. */
  ghost predicate FramesBelow(pageTable: seq<PageTableEntry>, freeFrame: int)
  {
    (forall p :: 0 <= p < |pageTable| && pageTable[p].valid ==> 0 <= pageTable[p].frame < freeFrame) &&
    Injective(pageTable)
  }

  /** A valid page's frame holds that page's bytes. */
  ghost predicate Loaded(memory: seq<SByte>, pageTable: seq<PageTableEntry>, store: Store)
  {
    forall p :: 0 <= p < |pageTable| && pageTable[p].valid ==> Holds(memory, pageTable[p].frame, store, p)
  }

  /** Every valid TLB slot names a valid page and agrees with its page-table entry. */
  ghost predicate TlbAgrees(tlb: seq<Entry>, pageTable: seq<PageTableEntry>)
  {
    forall i :: 0 <= i < |tlb| && tlb[i].valid ==>
      0 <= tlb[i].page < |pageTable| && pageTable[tlb[i].page].valid && pageTable[tlb[i].page].frame == tlb[i].frame
  }

  /** The counters, the clock, and the FIFO cursor, which has advanced once per TLB miss. */
  ghost predicate Counted(m: Machine)
  {
    0 <= m.tlbHits && m.tlbHits + m.pageFaults <= m.totalAddresses && m.currentTime == m.totalAddresses &&
    m.tlbIndex == (m.totalAddresses - m.tlbHits) % TLB_SIZE &&
    (forall f :: 0 <= f < |m.lastUsed| ==> -1 <= m.lastUsed[f] <= m.currentTime)
  }

  /** The sizes of the tables, and the two cursors within them. */
  ghost predicate Shaped(m: Machine)
  {
    1 <= m.frameCount <= MAX_FRAMES &&
    |m.tlb| == TLB_SIZE && |m.pageTable| == PAGE_TABLE_SIZE &&
    |m.lastUsed| == m.frameCount && |m.memory| == m.frameCount * PAGE_SIZE &&
    0 <= m.freeFrame <= m.frameCount && 0 <= m.tlbIndex < TLB_SIZE
  }

  /** The invariant every address preserves. */
  ghost predicate Inv(m: Machine, store: Store)
  {
    Shaped(m) &&
    FramesBelow(m.pageTable, m.freeFrame) &&
    |ValidPages(m.pageTable)| == m.freeFrame &&
    Loaded(m.memory, m.pageTable, store) &&
    Unique(m.tlb) && TlbAgrees(m.tlb, m.pageTable) &&
    Counted(m)
  }

  /** The state before the first address. */
  function Init(frameCount: int): (m: Machine)
    requires 1 <= frameCount <= MAX_FRAMES
    ensures forall store: Store :: Inv(m, store)
  {
    var m := Machine(frameCount, seq(TLB_SIZE, _ => Empty), 0, seq(PAGE_TABLE_SIZE, _ => Unmapped),
                     seq(frameCount, _ => -1), seq(frameCount * PAGE_SIZE, _ => 0), 0, 0, 0, 0, 0);
    assert ValidPages(m.pageTable) == {};
    m
  }

  // ---------------------------------------------------------------------
  // Counting frames
  // ---------------------------------------------------------------------

  ghost function ValidPagesBelow(pageTable: seq<PageTableEntry>, n: int): set<int>
    requires 0 <= n <= |pageTable|
  {
    set p | 0 <= p < n && pageTable[p].valid
  }

  ghost function FramesInUseBelow(pageTable: seq<PageTableEntry>, n: int): set<int>
    requires 0 <= n <= |pageTable|
  {
    set p | 0 <= p < n && pageTable[p].valid :: pageTable[p].frame
  }

  /** Extending the range by one page adds that page if it is valid. */
  lemma ValidPagesStep(pageTable: seq<PageTableEntry>, n: int)
    requires 0 < n <= |pageTable|
    ensures |ValidPagesBelow(pageTable, n)| == |ValidPagesBelow(pageTable, n - 1)| + if pageTable[n - 1].valid then 1 else 0
  {
    var pages := ValidPagesBelow(pageTable, n - 1);
    if pageTable[n - 1].valid {
      assert ValidPagesBelow(pageTable, n) == pages + {n - 1};
      assert n - 1 !in pages;
    } else {
      assert ValidPagesBelow(pageTable, n) == pages;
    }
  }

  /** Extending the range by one page adds its frame if it is valid, and that frame is new. */
  lemma FramesInUseStep(pageTable: seq<PageTableEntry>, n: int)
    requires Injective(pageTable) && 0 < n <= |pageTable|
    ensures |FramesInUseBelow(pageTable, n)| == |FramesInUseBelow(pageTable, n - 1)| + if pageTable[n - 1].valid then 1 else 0
  {
    var e := pageTable[n - 1];
    var frames := FramesInUseBelow(pageTable, n - 1);
    if e.valid {
      assert forall p :: 0 <= p < n - 1 && pageTable[p].valid ==> pageTable[p].frame != e.frame;
      assert e.frame !in frames;
      assert FramesInUseBelow(pageTable, n) == frames + {e.frame};
    } else {
      assert FramesInUseBelow(pageTable, n) == frames;
    }
  }

  /** Distinct valid pages hold distinct frames, so there are as many frames in use as valid pages. */
  lemma {:induction false} FramesInUseCard(pageTable: seq<PageTableEntry>, n: int)
    requires Injective(pageTable) && 0 <= n <= |pageTable|
    ensures |FramesInUseBelow(pageTable, n)| == |ValidPagesBelow(pageTable, n)|
  {
    if n > 0 {
      FramesInUseCard(pageTable, n - 1);
      ValidPagesStep(pageTable, n);
      FramesInUseStep(pageTable, n);
    }
  }

  /** A subset as large as its superset is the superset. */
  lemma SubsetFull(a: set<int>, b: set<int>)
    requires a <= b && |a| == |b|
    ensures a == b
  {
    assert |b - a| == |b| - |a|;
  }

  /**
   * The page table never holds more valid entries than the frames handed
   * out, so never more than `frameCount`; once every frame has been handed
   * out, every frame is held by some valid page.
   */
  lemma ValidPagesBound(m: Machine, store: Store)
    requires Inv(m, store)
    ensures |ValidPages(m.pageTable)| == m.freeFrame <= m.frameCount
    ensures forall f :: 0 <= f < m.freeFrame ==> OwnerOf(m.pageTable, f) != NO_PAGE
  {
    var pt := m.pageTable;
    FramesInUseCard(pt, |pt|);
    assert ValidPagesBelow(pt, |pt|) == ValidPages(pt);
    var used := FramesInUseBelow(pt, |pt|);
    assert used <= Below(m.freeFrame);
    SubsetFull(used, Below(m.freeFrame));
    forall f | 0 <= f < m.freeFrame
      ensures OwnerOf(pt, f) != NO_PAGE
    {
      assert f in used;
    }
  }

  // ---------------------------------------------------------------------
  // One address
  // ---------------------------------------------------------------------

  /** The state after a TLB hit on `frame`: the counters move and the frame is touched. */
  function Hit(m: Machine, frame: int): Machine
    requires 0 <= frame < |m.lastUsed|
  {
    m.(totalAddresses := m.totalAddresses + 1, currentTime := m.currentTime + 1,
       tlbHits := m.tlbHits + 1, lastUsed := m.lastUsed[frame := m.currentTime + 1])
  }

  /** The state after a TLB miss on a valid page: the frame is touched and the mapping goes into the TLB. */
  function Refill(m: Machine, page: int, frame: int): Machine
    requires 0 <= frame < |m.lastUsed| && 0 <= m.tlbIndex < |m.tlb|
  {
    m.(totalAddresses := m.totalAddresses + 1, currentTime := m.currentTime + 1,
       lastUsed := m.lastUsed[frame := m.currentTime + 1],
       tlb := Insert(m.tlb, m.tlbIndex, page, frame), tlbIndex := Advance(m.tlbIndex))
  }

  /** The frame a page fault is given: the bump cursor while frames are free, else the LRU frame. */
  function Victim(m: Machine): int
  {
    if m.freeFrame < m.frameCount then m.freeFrame else LruFrame(m.lastUsed)
  }

  /**
   * Frame allocation: bump the cursor while frames are free; otherwise
   * find the page holding the LRU frame and, if there is one, mark its
   * entry invalid (keeping its frame number) and clear its TLB slot.
   */
  function Allocate(m: Machine): Machine
    requires |m.pageTable| == PAGE_TABLE_SIZE
  {
    if m.freeFrame < m.frameCount then m.(freeFrame := m.freeFrame + 1)
    else
      var owner := OwnerOf(m.pageTable, Victim(m));
      if owner == NO_PAGE then m
      else m.(pageTable := m.pageTable[owner := m.pageTable[owner].(valid := false)],
              tlb := Invalidate(m.tlb, owner))
  }

  /**
   * The state after a page fault on `page`: a frame is allocated, the page
   * is read from the store into it, the page table binds the page to it,
   * the frame is touched and the mapping goes into the TLB.
   */
  function Faulted(m: Machine, store: Store, page: int): Machine
    requires Shaped(m) && 0 <= page < PAGE_TABLE_SIZE
  {
    var frame := Victim(m);
    var r := Allocate(m);
    m.(totalAddresses := m.totalAddresses + 1, currentTime := m.currentTime + 1,
       pageFaults := m.pageFaults + 1,
       freeFrame := r.freeFrame,
       memory := LoadFrame(m.memory, frame, PageBytes(store, page)),
       pageTable := r.pageTable[page := PageTableEntry(frame, true)],
       lastUsed := m.lastUsed[frame := m.currentTime + 1],
       tlb := Insert(r.tlb, m.tlbIndex, page, frame), tlbIndex := Advance(m.tlbIndex))
  }

  /** The frame the page resolves to: from the TLB on a hit, else from the page table, else the victim. */
  function FrameFor(m: Machine, page: int): int
    requires |m.pageTable| == PAGE_TABLE_SIZE && 0 <= page < PAGE_TABLE_SIZE
  {
    match Find(m.tlb, page)
    case Some(i) => m.tlb[i].frame
    case None => if m.pageTable[page].valid then m.pageTable[page].frame else Victim(m)
  }

  /** The frame of an address is a frame of physical memory. */
  lemma FrameForBound(m: Machine, store: Store, page: int)
    requires Inv(m, store) && 0 <= page < PAGE_TABLE_SIZE
    ensures 0 <= FrameFor(m, page) < m.frameCount
    ensures 0 <= Victim(m) < m.frameCount
  {
  }

  /** The machine after serving an access to `page`: a TLB hit, a page-table hit, or a page fault. */
  function Serve(m: Machine, store: Store, page: int): Machine
    requires Shaped(m) && 0 <= page < PAGE_TABLE_SIZE && 0 <= FrameFor(m, page) < m.frameCount
  {
    match Find(m.tlb, page)
    case Some(_) => Hit(m, FrameFor(m, page))
    case None => if m.pageTable[page].valid then Refill(m, page, FrameFor(m, page)) else Faulted(m, store, page)
  }

  /** What processing one input address does (the body of the main loop). */
  function Next(m: Machine, store: Store, raw: Int32): (Machine, Translation)
    requires Inv(m, store)
  {
    var a := Decode(raw);
    FrameForBound(m, store, a.page);
    var frame := FrameFor(m, a.page);
    var m' := Serve(m, store, a.page);
    var physical := frame * PAGE_SIZE + a.offset;
    (m', Translation(a.logical, physical, m'.memory[physical]))
  }

  /** The line `Next` emits: the logical address, the physical address at the page's frame, and the byte there. */
  lemma NextOutput(m: Machine, store: Store, raw: Int32)
    requires Inv(m, store)
    ensures (FrameForBound(m, store, Decode(raw).page);
      var a := Decode(raw);
      var physical := FrameFor(m, a.page) * PAGE_SIZE + a.offset;
      var m' := Next(m, store, raw).0;
      physical < |m'.memory| &&
      Next(m, store, raw).1 == Translation(a.logical, physical, m'.memory[physical]))
  {
  }

  // ---------------------------------------------------------------------
  // Each address preserves the invariant
  // ---------------------------------------------------------------------

  lemma TouchCounted(m: Machine, frame: int, m': Machine)
    requires Counted(m) && 0 <= frame < |m.lastUsed|
    requires m'.lastUsed == m.lastUsed[frame := m.currentTime + 1]
    requires m'.currentTime == m.currentTime + 1 == m'.totalAddresses && m'.totalAddresses == m.totalAddresses + 1
    requires m'.tlbHits + m'.pageFaults <= m.tlbHits + m.pageFaults + 1
    requires m'.tlbHits == m.tlbHits || m'.tlbHits == m.tlbHits + 1
    requires m'.tlbIndex == (if m'.tlbHits == m.tlbHits then Advance(m.tlbIndex) else m.tlbIndex)
    ensures Counted(m')
  {
    if m'.tlbHits == m.tlbHits {
      AdvanceCounts(m.totalAddresses, m.tlbHits, m.tlbIndex);
    }
  }

  lemma NextInvHit(m: Machine, store: Store, raw: Int32)
    requires Inv(m, store) && Find(m.tlb, Decode(raw).page).Some?
    ensures Inv(Next(m, store, raw).0, store)
  {
    var page := Decode(raw).page;
    FrameForBound(m, store, page);
    var frame := FrameFor(m, page);
    TouchCounted(m, frame, Hit(m, frame));
    assert Next(m, store, raw).0 == Hit(m, frame);
  }

  lemma NextInvRefill(m: Machine, store: Store, raw: Int32)
    requires Inv(m, store) && Find(m.tlb, Decode(raw).page).None? && m.pageTable[Decode(raw).page].valid
    ensures Inv(Next(m, store, raw).0, store)
  {
    var page := Decode(raw).page;
    FrameForBound(m, store, page);
    var frame := FrameFor(m, page);
    InsertOnMiss(m.tlb, m.tlbIndex, page, frame);
    TouchCounted(m, frame, Refill(m, page, frame));
    assert Next(m, store, raw).0 == Refill(m, page, frame);
  }

  /**
   * What allocation leaves behind: the victim frame is held by no valid
   * page any more, the valid pages are one fewer than the frames handed
   * out, and the TLB still agrees with the page table.
   */
  lemma AllocateFrees(m: Machine, store: Store, page: int)
    requires Inv(m, store) && 0 <= page < PAGE_TABLE_SIZE && !m.pageTable[page].valid
    ensures var r := Allocate(m); var frame := Victim(m);
      0 <= frame < r.freeFrame <= m.frameCount &&
      FramesBelow(r.pageTable, r.freeFrame) &&
      (forall p :: 0 <= p < PAGE_TABLE_SIZE && r.pageTable[p].valid ==> r.pageTable[p].frame != frame) &&
      |ValidPages(r.pageTable)| + 1 == r.freeFrame &&
      !r.pageTable[page].valid && |r.pageTable| == PAGE_TABLE_SIZE &&
      (forall p :: 0 <= p < PAGE_TABLE_SIZE && r.pageTable[p].valid ==> m.pageTable[p] == r.pageTable[p]) &&
      Unique(r.tlb) && TlbAgrees(r.tlb, r.pageTable) && |r.tlb| == TLB_SIZE
  {
    var frame := Victim(m);
    FrameForBound(m, store, page);
    ValidPagesBound(m, store);
    if m.freeFrame == m.frameCount {
      var owner := OwnerOf(m.pageTable, frame);
      var pt' := m.pageTable[owner := m.pageTable[owner].(valid := false)];
      assert owner != page;
      assert ValidPages(m.pageTable) == ValidPages(pt') + {owner};
      InvalidateClears(m.tlb, owner);
    }
  }

  /** Binding an unmapped page to a frame no valid page holds keeps the frames distinct and adds one valid page. */
  lemma BindFresh(pageTable: seq<PageTableEntry>, n: int, page: int, frame: int)
    requires FramesBelow(pageTable, n) && 0 <= page < |pageTable| && !pageTable[page].valid && 0 <= frame < n
    requires forall p :: 0 <= p < |pageTable| && pageTable[p].valid ==> pageTable[p].frame != frame
    ensures FramesBelow(pageTable[page := PageTableEntry(frame, true)], n)
    ensures ValidPages(pageTable[page := PageTableEntry(frame, true)]) == ValidPages(pageTable) + {page}
    ensures page !in ValidPages(pageTable)
  {
    var pt := pageTable[page := PageTableEntry(frame, true)];
    assert ValidPages(pt) == ValidPages(pageTable) + {page};
  }

  /** After a fault the page table binds the page to the victim frame, and stays injective. */
  lemma FaultTable(m: Machine, store: Store, page: int)
    requires Inv(m, store) && 0 <= page < PAGE_TABLE_SIZE && !m.pageTable[page].valid
    ensures var r := Allocate(m); var pt := r.pageTable[page := PageTableEntry(Victim(m), true)];
      FramesBelow(pt, r.freeFrame) && |ValidPages(pt)| == r.freeFrame && 0 <= r.freeFrame <= m.frameCount
  {
    var r := Allocate(m);
    AllocateFrees(m, store, page);
    BindFresh(r.pageTable, r.freeFrame, page, Victim(m));
  }

  /** After a fault the TLB still has one slot per page and agrees with the page table. */
  lemma FaultTlb(m: Machine, store: Store, page: int)
    requires Inv(m, store) && 0 <= page < PAGE_TABLE_SIZE && !m.pageTable[page].valid
    ensures var r := Allocate(m); var frame := Victim(m);
      var pt := r.pageTable[page := PageTableEntry(frame, true)];
      var tlb := Insert(r.tlb, m.tlbIndex, page, frame);
      Unique(tlb) && TlbAgrees(tlb, pt)
  {
    var r := Allocate(m);
    var frame := Victim(m);
    AllocateFrees(m, store, page);
    // the page was not valid, so no TLB slot names it
    FindHitsIff(r.tlb, page);
    InsertOnMiss(r.tlb, m.tlbIndex, page, frame);
  }

  /** After a fault every valid page's frame holds its bytes: only the victim frame was overwritten. */
  lemma FaultLoaded(m: Machine, store: Store, page: int)
    requires Inv(m, store) && 0 <= page < PAGE_TABLE_SIZE && !m.pageTable[page].valid
    ensures var r := Allocate(m); var frame := Victim(m);
      0 <= frame < m.frameCount &&
      Loaded(LoadFrame(m.memory, frame, PageBytes(store, page)), r.pageTable[page := PageTableEntry(frame, true)], store)
  {
    var r := Allocate(m);
    var frame := Victim(m);
    AllocateFrees(m, store, page);
    var bytes := PageBytes(store, page);
    var memory := LoadFrame(m.memory, frame, bytes);
    var pt := r.pageTable[page := PageTableEntry(frame, true)];
    forall p | 0 <= p < PAGE_TABLE_SIZE && pt[p].valid
      ensures Holds(memory, pt[p].frame, store, p)
    {
      if p != page {
        LoadFrameKeeps(m.memory, frame, bytes, m.pageTable[p].frame, store, p);
      }
    }
  }

  lemma NextInvFault(m: Machine, store: Store, raw: Int32)
    requires Inv(m, store) && Find(m.tlb, Decode(raw).page).None? && !m.pageTable[Decode(raw).page].valid
    ensures Inv(Next(m, store, raw).0, store)
  {
    var page := Decode(raw).page;
    var frame := Victim(m);
    FaultTable(m, store, page);
    FaultTlb(m, store, page);
    FaultLoaded(m, store, page);
    var m' := Faulted(m, store, page);
    assert Next(m, store, raw).0 == m';
    TouchCounted(m, frame, m');
  }

  lemma NextInv(m: Machine, store: Store, raw: Int32)
    requires Inv(m, store)
    ensures Inv(Next(m, store, raw).0, store)
  {
    var page := Decode(raw).page;
    if Find(m.tlb, page).Some? {
      NextInvHit(m, store, raw);
    } else if m.pageTable[page].valid {
      NextInvRefill(m, store, raw);
    } else {
      NextInvFault(m, store, raw);
    }
  }

  // ---------------------------------------------------------------------
  // What one address does
  // ---------------------------------------------------------------------

  /** After an address, its page is valid and bound to the frame the translation used. */
  lemma NextFrame(m: Machine, store: Store, raw: Int32)
    requires Inv(m, store)
    ensures var page := Decode(raw).page;
      FrameFor(m, page) < m.frameCount &&
      Next(m, store, raw).0.pageTable[page] == PageTableEntry(FrameFor(m, page), true)
  {
    var page := Decode(raw).page;
    FrameForBound(m, store, page);
    if Find(m.tlb, page).Some? {
      var i := Find(m.tlb, page).value;
      assert m.pageTable[m.tlb[i].page].valid;
    }
  }

  /**
   * Translation is correct: the physical address is the frame the page
   * table binds the page to afterwards, times 256, plus the offset; it lies
   * inside the `frameCount` frames of physical memory; and the byte read is
   * the backing-store byte at the logical address.
   */
  lemma NextTranslates(m: Machine, store: Store, raw: Int32)
    requires Inv(m, store)
    ensures var (m', t) := Next(m, store, raw); var a := Decode(raw);
      t.logical == a.logical && m'.pageTable[a.page].valid &&
      t.physical == m'.pageTable[a.page].frame * PAGE_SIZE + a.offset &&
      0 <= t.physical < m.frameCount * PAGE_SIZE &&
      t.value == store[t.logical]
  {
    var a := Decode(raw);
    var (m', t) := Next(m, store, raw);
    NextInv(m, store, raw);
    NextFrame(m, store, raw);
    HoldsRead(m'.memory, m'.pageTable[a.page].frame, store, a.page, a.offset);
  }

  /**
   * The counters and the clock: every address is counted and ticks the
   * clock; a TLB hit exactly when a valid slot names the page; a page
   * fault exactly when the page's entry is not valid; the FIFO cursor
   * moves exactly on a TLB miss; and the frame the address used, and no
   * other, is stamped with the new time.
   */
  lemma NextCounts(m: Machine, store: Store, raw: Int32)
    requires Inv(m, store)
    ensures var m' := Next(m, store, raw).0; var page := Decode(raw).page;
      m'.frameCount == m.frameCount &&
      m'.totalAddresses == m.totalAddresses + 1 && m'.currentTime == m.currentTime + 1 &&
      m'.tlbHits == m.tlbHits + (if exists j :: 0 <= j < TLB_SIZE && Names(m.tlb[j], page) then 1 else 0) &&
      m'.pageFaults == m.pageFaults + (if m.pageTable[page].valid then 0 else 1) &&
      m'.tlbIndex == (if m'.tlbHits == m.tlbHits then (m.tlbIndex + 1) % TLB_SIZE else m.tlbIndex) &&
      m'.lastUsed == m.lastUsed[m'.pageTable[page].frame := m'.currentTime]
  {
    var page := Decode(raw).page;
    FindHitsIff(m.tlb, page);
    NextFrame(m, store, raw);
    if Find(m.tlb, page).Some? {
      var i := Find(m.tlb, page).value;
      assert m.pageTable[m.tlb[i].page].valid;
    }
  }

  /** An address whose page is valid changes neither the page table, nor the frames, nor physical memory. */
  lemma NextKeeps(m: Machine, store: Store, raw: Int32)
    requires Inv(m, store) && m.pageTable[Decode(raw).page].valid
    ensures var m' := Next(m, store, raw).0;
      m'.pageTable == m.pageTable && m'.memory == m.memory && m'.freeFrame == m.freeFrame &&
      m'.pageFaults == m.pageFaults
  {
  }

  /**
   * A page fault while frames are free takes the bump cursor's frame and
   * advances the cursor, which never passes `frameCount`; no other entry
   * changes.
   */
  lemma NextBumps(m: Machine, store: Store, raw: Int32)
    requires Inv(m, store) && !m.pageTable[Decode(raw).page].valid && m.freeFrame < m.frameCount
    ensures var m' := Next(m, store, raw).0; var page := Decode(raw).page;
      m'.pageTable == m.pageTable[page := PageTableEntry(m.freeFrame, true)] &&
      m'.freeFrame == m.freeFrame + 1 <= m.frameCount
  {
    var page := Decode(raw).page;
    FindHitsIff(m.tlb, page);
  }

  /**
   * A page fault once every frame is in use takes the LRU frame. Some
   * valid page always holds that frame (so the "no page" branch is never
   * taken), and it is not the faulting page; its entry is marked invalid,
   * keeping its frame number, no valid TLB slot names it afterwards, and
   * the faulting page takes over the frame. No other entry changes and the
   * bump cursor stays at `frameCount`.
   */
  lemma NextEvicts(m: Machine, store: Store, raw: Int32)
    requires Inv(m, store) && !m.pageTable[Decode(raw).page].valid && m.freeFrame == m.frameCount
    ensures var m' := Next(m, store, raw).0; var page := Decode(raw).page;
      var frame := LruFrame(m.lastUsed); var owner := OwnerOf(m.pageTable, frame);
      0 <= frame < m.frameCount &&
      owner != NO_PAGE && owner != page && m.pageTable[owner] == PageTableEntry(frame, true) &&
      m'.pageTable == m.pageTable[owner := PageTableEntry(frame, false)][page := PageTableEntry(frame, true)] &&
      (forall i :: 0 <= i < TLB_SIZE && m'.tlb[i].valid ==> m'.tlb[i].page != owner) &&
      m'.tlb[m.tlbIndex] == Entry(page, frame, true) &&
      (forall i :: 0 <= i < TLB_SIZE && i != m.tlbIndex ==>
        m'.tlb[i] == m.tlb[i].(valid := m.tlb[i].valid && m.tlb[i].page != owner)) &&
      m'.memory == LoadFrame(m.memory, frame, PageBytes(store, page)) &&
      m'.freeFrame == m.freeFrame
  {
    var page := Decode(raw).page;
    FindHitsIff(m.tlb, page);
    FrameForBound(m, store, page);
    ValidPagesBound(m, store);
    var frame := LruFrame(m.lastUsed);
    var owner := OwnerOf(m.pageTable, frame);
    InvalidateClears(m.tlb, owner);
  }

  /**
   * The LRU scan picks a least recently used frame, the lowest-numbered
   * one among ties. Frames never used carry -1 and so go first. This holds
   * while the clock is a C int; if every frame is stamped INT_MAX, the
   * scan's starting minimum, it keeps frame 0, which is then also least.
   */
  lemma LruVictimLeast(m: Machine, store: Store)
    requires Inv(m, store) && m.currentTime <= INT_MAX
    ensures var f := LruFrame(m.lastUsed);
      0 <= f < m.frameCount &&
      (forall g :: 0 <= g < m.frameCount ==> m.lastUsed[f] <= m.lastUsed[g]) &&
      (forall g :: 0 <= g < f ==> m.lastUsed[f] < m.lastUsed[g])
  {
    LruScanFirstMin(m.lastUsed);
  }

  /** Under the invariant the owner lookup finds the one valid page holding a frame, if there is one. */
  lemma OwnerOfIff(m: Machine, store: Store, frame: int, page: int)
    requires Inv(m, store) && 0 <= page < PAGE_TABLE_SIZE
    ensures OwnerOf(m.pageTable, frame) == page <==> m.pageTable[page].valid && m.pageTable[page].frame == frame
  {
  }

  /** The resident pages are one per frame in use, so never more than `frameCount`. */
  lemma ResidentBound(m: Machine, store: Store)
    requires Inv(m, store)
    ensures |ValidPages(m.pageTable)| <= m.frameCount
  {
    ValidPagesBound(m, store);
  }

  /** With a single frame, the page just used is the only resident page. */
  lemma SingleFrameResident(m: Machine, store: Store, raw: Int32)
    requires Inv(m, store) && m.frameCount == 1
    ensures ValidPages(Next(m, store, raw).0.pageTable) == {Decode(raw).page}
  {
    var page := Decode(raw).page;
    var m' := Next(m, store, raw).0;
    NextInv(m, store, raw);
    NextFrame(m, store, raw);
    ValidPagesBound(m', store);
    var v := ValidPages(m'.pageTable);
    assert page in v;
    assert |v - {page}| == |v| - 1;
    assert v - {page} == {};
  }

  /** With a single frame, every change of page faults. */
  lemma SingleFrameThrashes(m: Machine, store: Store, raw: Int32, raw': Int32)
    requires Inv(m, store) && m.frameCount == 1 && Decode(raw).page != Decode(raw').page
    ensures (NextInv(m, store, raw);
      var m1 := Next(m, store, raw).0;
      Next(m1, store, raw').0.pageFaults == m1.pageFaults + 1)
  {
    NextInv(m, store, raw);
    var m1 := Next(m, store, raw).0;
    SingleFrameResident(m, store, raw);
    assert Decode(raw').page !in ValidPages(m1.pageTable);
    NextCounts(m1, store, raw');
  }

  // ---------------------------------------------------------------------
  // A whole input stream
  // ---------------------------------------------------------------------

  /** The main loop over an input stream: the final state and the output lines. */
  function Run(m: Machine, store: Store, addresses: seq<Int32>): (r: (Machine, seq<Translation>))
    requires Inv(m, store)
    ensures Inv(r.0, store) && |r.1| == |addresses|
    decreases |addresses|
  {
    if addresses == [] then (m, [])
    else
      NextInv(m, store, addresses[0]);
      var (m', t) := Next(m, store, addresses[0]);
      var (final, ts) := Run(m', store, addresses[1..]);
      (final, [t] + ts)
  }

  /** Running a stream that starts with `raw` is one step and then the run of the rest. */
  lemma RunCons(m: Machine, store: Store, raw: Int32, rest: seq<Int32>)
    requires Inv(m, store)
    ensures (NextInv(m, store, raw);
      Run(m, store, [raw] + rest) ==
        (Run(Next(m, store, raw).0, store, rest).0, [Next(m, store, raw).1] + Run(Next(m, store, raw).0, store, rest).1))
  {
    assert ([raw] + rest)[0] == raw;
    assert ([raw] + rest)[1..] == rest;
  }

  /** Running a stream and then one more address is running the longer stream. */
  lemma {:induction false} RunSnoc(m: Machine, store: Store, addresses: seq<Int32>, raw: Int32)
    requires Inv(m, store)
    ensures Run(m, store, addresses + [raw]).0 == Next(Run(m, store, addresses).0, store, raw).0
    ensures Run(m, store, addresses + [raw]).1 == Run(m, store, addresses).1 + [Next(Run(m, store, addresses).0, store, raw).1]
    decreases |addresses|
  {
    var longer := addresses + [raw];
    if addresses == [] {
      assert longer[0] == raw && longer[1..] == [];
      NextInv(m, store, raw);
    } else {
      assert longer[0] == addresses[0];
      assert longer[1..] == addresses[1..] + [raw];
      NextInv(m, store, addresses[0]);
      var (m1, t1) := Next(m, store, addresses[0]);
      RunSnoc(m1, store, addresses[1..], raw);
      var out := Run(m1, store, addresses[1..]).1;
      var t := Next(Run(m1, store, addresses[1..]).0, store, raw).1;
      assert [t1] + (out + [t]) == ([t1] + out) + [t];
    }
  }

  /** The run of the first k + 1 addresses is the run of the first k and one more step. */
  lemma RunPrefix(m: Machine, store: Store, addresses: seq<Int32>, k: int)
    requires Inv(m, store) && 0 <= k < |addresses|
    ensures Run(m, store, addresses[..k + 1]).0 == Next(Run(m, store, addresses[..k]).0, store, addresses[k]).0
    ensures Run(m, store, addresses[..k + 1]).1 ==
      Run(m, store, addresses[..k]).1 + [Next(Run(m, store, addresses[..k]).0, store, addresses[k]).1]
  {
    assert addresses[..k] + [addresses[k]] == addresses[..k + 1];
    RunSnoc(m, store, addresses[..k], addresses[k]);
  }

  /** Every line a run produces is a correct translation of its input address. */
  lemma {:induction false} RunTranslates(m: Machine, store: Store, addresses: seq<Int32>)
    requires Inv(m, store)
    ensures var out := Run(m, store, addresses).1;
      forall k :: 0 <= k < |addresses| ==>
        out[k].logical == Decode(addresses[k]).logical && 0 <= out[k].physical < m.frameCount * PAGE_SIZE &&
        out[k].value == store[out[k].logical]
    ensures Run(m, store, addresses).0.frameCount == m.frameCount
    ensures Run(m, store, addresses).0.totalAddresses == m.totalAddresses + |addresses|
    decreases |addresses|
  {
    if addresses != [] {
      NextInv(m, store, addresses[0]);
      NextTranslates(m, store, addresses[0]);
      NextCounts(m, store, addresses[0]);
      RunTranslates(Next(m, store, addresses[0]).0, store, addresses[1..]);
      var out := Run(m, store, addresses).1;
      forall k | 0 <= k < |addresses|
        ensures out[k].logical == Decode(addresses[k]).logical && 0 <= out[k].physical < m.frameCount * PAGE_SIZE &&
          out[k].value == store[out[k].logical]
      {
        if k > 0 {
          assert addresses[k] == addresses[1..][k - 1];
        }
      }
    }
  }

  // ---------------------------------------------------------------------
  // The simulator over its arrays
  // ---------------------------------------------------------------------

  /** The LRU simulator: global tables, the malloc'ed frames and their last-use times. */
  class Simulator {
    const frameCount: int
    const store: Store
    const tlb: array<Entry>
    const pageTable: array<PageTableEntry>
    const frameLastUsed: array<int>
    const physicalMemory: array<SByte>
    var tlbIndex: int
    var freeFrame: int
    var currentTime: int
    var totalAddresses: int
    var tlbHits: int
    var pageFaults: int

    /** The state as a value. */
    ghost function State(): Machine
      reads this, tlb, pageTable, frameLastUsed, physicalMemory
    {
      Machine(frameCount, tlb[..], tlbIndex, pageTable[..], frameLastUsed[..], physicalMemory[..],
              freeFrame, currentTime, totalAddresses, tlbHits, pageFaults)
    }

    ghost predicate Valid()
      reads this, tlb, pageTable, frameLastUsed, physicalMemory
    {
      Inv(State(), store)
    }

    /**
     * The set-up before the main loop for a validated frame count: every
     * frame never used (-1), every page-table entry and TLB slot invalid.
     */
    constructor (frameCount: int, store: Store)
      requires 1 <= frameCount <= MAX_FRAMES
      ensures this.frameCount == frameCount && this.store == store
      ensures Valid() && State() == Init(frameCount)
      ensures fresh(tlb) && fresh(pageTable) && fresh(frameLastUsed) && fresh(physicalMemory)
    {
      this.frameCount := frameCount;
      this.store := store;
      var memory := new SByte[frameCount * PAGE_SIZE](_ => 0);
      var lastUsed := new int[frameCount];
      for i := 0 to frameCount
        invariant forall f :: 0 <= f < i ==> lastUsed[f] == -1
        modifies lastUsed
      {
        lastUsed[i] := -1;
      }
      var table := new PageTableEntry[PAGE_TABLE_SIZE](_ => Unmapped);
      for i := 0 to PAGE_TABLE_SIZE
        invariant forall p :: 0 <= p < PAGE_TABLE_SIZE ==> table[p] == Unmapped
        modifies table
      {
        table[i] := table[i].(valid := false);
      }
      var slots := new Entry[TLB_SIZE](_ => Empty);
      for i := 0 to TLB_SIZE
        invariant forall j :: 0 <= j < TLB_SIZE ==> slots[j] == Empty
        modifies slots
      {
        slots[i] := slots[i].(valid := false);
      }
      assert memory[..] == Init(frameCount).memory;
      assert lastUsed[..] == Init(frameCount).lastUsed;
      assert table[..] == Init(frameCount).pageTable;
      assert slots[..] == Init(frameCount).tlb;
      tlb, pageTable, frameLastUsed, physicalMemory := slots, table, lastUsed, memory;
      tlbIndex, freeFrame, currentTime, totalAddresses, tlbHits, pageFaults := 0, 0, 0, 0, 0, 0;
    }

    /** `find_lru_frame`: the first frame with the smallest last-use time below INT_MAX, else 0. */
    method FindLruFrame() returns (lruFrame: int)
      requires frameLastUsed.Length == frameCount
      ensures lruFrame == LruFrame(frameLastUsed[..])
    {
      lruFrame := 0;
      var minTime := INT_MAX;
      for i := 0 to frameCount
        invariant (lruFrame, minTime) == LruScan(frameLastUsed[..i])
      {
        assert frameLastUsed[..i + 1][..i] == frameLastUsed[..i];
        if frameLastUsed[i] < minTime {
          minTime := frameLastUsed[i];
          lruFrame := i;
        }
      }
      assert frameLastUsed[..frameCount] == frameLastUsed[..];
    }

    /** `find_page_using_frame`: the lowest page whose valid entry holds `frame`, or -1. */
    method FindPageUsingFrame(frame: int) returns (page: int)
      requires pageTable.Length == PAGE_TABLE_SIZE
      ensures page == OwnerOf(pageTable[..], frame)
    {
      for i := 0 to PAGE_TABLE_SIZE
        invariant OwnerFrom(pageTable[..], frame, i) == OwnerOf(pageTable[..], frame)
      {
        if pageTable[i].valid && pageTable[i].frame == frame {
          return i;
        }
      }
      return NO_PAGE;
    }

    /**
     * Frame allocation on a page fault: the bump cursor's frame while frames
     * are free; else the LRU frame, whose owner, if any, loses its
     * page-table entry and its TLB slot.
     */
    method AllocateFrame() returns (frame: int)
      requires pageTable.Length == PAGE_TABLE_SIZE && frameLastUsed.Length == frameCount
      modifies this`freeFrame, pageTable, tlb
      ensures frame == Victim(old(State()))
      ensures pageTable[..] == Allocate(old(State())).pageTable && tlb[..] == Allocate(old(State())).tlb
      ensures freeFrame == Allocate(old(State())).freeFrame
    {
      if freeFrame < frameCount {
        frame := freeFrame;
        freeFrame := freeFrame + 1;
      } else {
        frame := FindLruFrame();
        var oldPage := FindPageUsingFrame(frame);
        if oldPage != NO_PAGE {
          pageTable[oldPage] := pageTable[oldPage].(valid := false);
          InvalidatePage(tlb, oldPage);
        }
      }
    }

    /**
     * The page-fault path, after the clock has ticked: read the page from
     * the store, allocate a frame, copy the page in, bind the page to the
     * frame and stamp the frame with the current time.
     */
    method ServeFault(ghost s: Machine, page: int) returns (frame: int)
      requires Shaped(s) && 0 <= page < PAGE_TABLE_SIZE && !s.pageTable[page].valid
      requires State() == s.(totalAddresses := s.totalAddresses + 1, currentTime := s.currentTime + 1)
      modifies this`pageFaults, this`freeFrame, tlb, pageTable, frameLastUsed, physicalMemory
      ensures frame == Victim(s) && 0 <= frame < frameCount
      ensures pageFaults == s.pageFaults + 1 && freeFrame == Allocate(s).freeFrame
      ensures tlb[..] == Allocate(s).tlb
      ensures pageTable[..] == Allocate(s).pageTable[page := PageTableEntry(frame, true)]
      ensures physicalMemory[..] == LoadFrame(s.memory, frame, PageBytes(store, page))
      ensures frameLastUsed[..] == s.lastUsed[frame := s.currentTime + 1]
    {
      pageFaults := pageFaults + 1;
      var buffer := PageBytes(store, page);
      frame := AllocateFrame();
      CopyPage(physicalMemory, frame, buffer);
      pageTable[page] := PageTableEntry(frame, true);
      frameLastUsed[frame] := currentTime;
    }

    /**
     * The TLB-miss path of one iteration, after the clock has ticked: the
     * page-table lookup, the page fault if the page is not valid, and the
     * FIFO insert into the TLB.
     */
    method ServeMiss(ghost s: Machine, page: int) returns (frame: int)
      requires Shaped(s) && 0 <= page < PAGE_TABLE_SIZE && Find(s.tlb, page).None?
      requires s.pageTable[page].valid ==> 0 <= s.pageTable[page].frame < s.frameCount
      requires State() == s.(totalAddresses := s.totalAddresses + 1, currentTime := s.currentTime + 1)
      modifies this, tlb, pageTable, frameLastUsed, physicalMemory
      ensures frame == FrameFor(s, page)
      ensures State() == if s.pageTable[page].valid then Refill(s, page, frame) else Faulted(s, store, page)
    {
      if pageTable[page].valid {
        frame := pageTable[page].frame;
        frameLastUsed[frame] := currentTime;
      } else {
        frame := ServeFault(s, page);
      }
      tlb[tlbIndex] := Entry(page, frame, true);
      tlbIndex := Advance(tlbIndex);
    }

    /** The TLB-hit path of one iteration, after the clock has ticked: count the hit and stamp the frame. */
    method ServeHit(ghost s: Machine, slot: nat) returns (frame: int)
      requires Shaped(s) && slot < TLB_SIZE && 0 <= s.tlb[slot].frame < s.frameCount
      requires State() == s.(totalAddresses := s.totalAddresses + 1, currentTime := s.currentTime + 1)
      modifies this`tlbHits, frameLastUsed
      ensures frame == s.tlb[slot].frame && State() == Hit(s, frame)
    {
      frame := tlb[slot].frame;
      tlbHits := tlbHits + 1;
      frameLastUsed[frame] := currentTime;
    }

    /** Looking `page` up in the TLB, then in the page table, faulting it in if neither has it. */
    method Resolve(ghost s: Machine, page: int) returns (frame: int)
      requires Shaped(s) && 0 <= page < PAGE_TABLE_SIZE && 0 <= FrameFor(s, page) < s.frameCount
      requires s.pageTable[page].valid ==> 0 <= s.pageTable[page].frame < s.frameCount
      requires State() == s.(totalAddresses := s.totalAddresses + 1, currentTime := s.currentTime + 1)
      modifies this, tlb, pageTable, frameLastUsed, physicalMemory
      ensures frame == FrameFor(s, page) && State() == Serve(s, store, page)
    {
      var slot := Lookup(tlb, page);
      if slot.Some? {
        frame := ServeHit(s, slot.value);
      } else {
        frame := ServeMiss(s, page);
      }
    }

    /** One iteration of the main loop: translate `raw` and read the byte it names. */
    method Step(raw: Int32) returns (t: Translation)
      requires Valid()
      modifies this, tlb, pageTable, frameLastUsed, physicalMemory
      ensures Valid()
      ensures (State(), t) == Next(old(State()), store, raw)
      ensures t.value == store[t.logical]
    {
      ghost var s := State();
      var a := Decode(raw);
      FrameForBound(s, store, a.page);
      assert s.pageTable[a.page].valid ==> 0 <= s.pageTable[a.page].frame < s.frameCount;
      totalAddresses := totalAddresses + 1;
      currentTime := currentTime + 1;
      var frame := Resolve(s, a.page);
      var physical := frame * PAGE_SIZE + a.offset;
      NextOutput(s, store, raw);
      t := Translation(a.logical, physical, physicalMemory[physical]);
      NextInv(s, store, raw);
      NextTranslates(s, store, raw);
    }

    /** The main loop over the whole input stream. */
    method ProcessStream(addresses: seq<Int32>) returns (out: seq<Translation>)
      requires Valid()
      modifies this, tlb, pageTable, frameLastUsed, physicalMemory
      ensures Valid()
      ensures (State(), out) == Run(old(State()), store, addresses)
    {
      out := [];
      ghost var start := State();
      assert addresses[..0] == [];
      for k := 0 to |addresses|
        invariant Valid()
        invariant Run(start, store, addresses[..k]).0 == State() && Run(start, store, addresses[..k]).1 == out
      {
        RunPrefix(start, store, addresses, k);
        var t := Step(addresses[k]);
        out := out + [t];
      }
      assert addresses[..|addresses|] == addresses;
    }
  }

  /**
   * The whole program on a frame-count argument, a backing store and an
   * input stream: a frame count outside [1, 256] stops it with an error
   * before any address is read; otherwise it prints one translation per
   * address, each correct, and the summary's counters.
   */
  method Simulate(frameArg: Option<int>, store: Store, addresses: seq<Int32>) returns (r: Result<Report>)
    ensures r.Ok? <==> FrameCountArg(frameArg).Ok?
    ensures r.Err? ==> r == Err("Error: Frame count must be between 1 and 256")
    ensures r.Ok? ==> r.value.lines == Run(Init(FrameCountArg(frameArg).value), store, addresses).1
    ensures r.Ok? ==> forall k :: 0 <= k < |addresses| ==>
      r.value.lines[k].logical == Decode(addresses[k]).logical && r.value.lines[k].value == store[r.value.lines[k].logical]
    ensures r.Ok? ==> r.value.totalAddresses == |addresses|
    ensures r.Ok? ==> r.value.pageFaults == Run(Init(FrameCountArg(frameArg).value), store, addresses).0.pageFaults
    ensures r.Ok? ==> r.value.tlbHits == Run(Init(FrameCountArg(frameArg).value), store, addresses).0.tlbHits
    ensures r.Ok? ==> 0 <= r.value.tlbHits && r.value.tlbHits + r.value.pageFaults <= r.value.totalAddresses
  {
    var count := FrameCountArg(frameArg);
    if count.Err? {
      return Err(count.msg);
    }
    var sim := new Simulator(count.value, store);
    var out := sim.ProcessStream(addresses);
    RunTranslates(Init(count.value), store, addresses);
    return Ok(Report(out, sim.totalAddresses, sim.pageFaults, sim.tlbHits));
  }
}
