/**
 * The fixed variant of the simulator: 256 frames, as many as there are
 * logical pages, so frames are handed out by a bump cursor and never
 * reclaimed. The page table holds a frame number per page, -1 meaning
 * "not in memory".
 *
 * `Machine` is the simulator's state as a value and `Next` what one
 * address does to it; `Simulator` is the same state in arrays, and its
 * `Step` is proved to do exactly what `Next` says.
 */
module FixedVm {
  import opened Paging
  import opened Tlb

  /** Frames of physical memory. */
  const FRAME_COUNT: int := 256
  /** Bytes of physical memory. */
  const MEMORY_SIZE: int := FRAME_COUNT * PAGE_SIZE
  /** The page-table sentinel for a page that is not in memory. */
  const NO_FRAME: int := -1

  datatype Machine = Machine(
    tlb: seq<Entry>,
    tlbIndex: int,
    pageTable: seq<int>,
    memory: seq<SByte>,
    freeFrame: int,
    totalAddresses: int,
    tlbHits: int,
    pageFaults: int)

  /** The state before the first address: every page unmapped, every TLB slot invalid. */
  function Init(): (m: Machine)
    ensures |m.tlb| == TLB_SIZE && |m.pageTable| == PAGE_TABLE_SIZE && |m.memory| == MEMORY_SIZE
  {
    Machine(seq(TLB_SIZE, _ => Empty), 0, seq(PAGE_TABLE_SIZE, _ => NO_FRAME),
            seq(MEMORY_SIZE, _ => 0), 0, 0, 0, 0)
  }

  /** The pages that have a frame. */
  ghost function Mapped(pageTable: seq<int>): set<int>
  {
    set p | 0 <= p < |pageTable| && pageTable[p] != NO_FRAME
  }

  /** Every valid TLB slot names a mapped page and agrees with its page-table entry. */
  ghost predicate TlbAgrees(tlb: seq<Entry>, pageTable: seq<int>)
  {
    forall i :: 0 <= i < |tlb| && tlb[i].valid ==>
      0 <= tlb[i].page < |pageTable| && pageTable[tlb[i].page] == tlb[i].frame != NO_FRAME
  }

  /** Mapped pages hold distinct frames below the bump cursor. */
  ghost predicate FramesBelow(pageTable: seq<int>, freeFrame: int)
  {
    (forall p :: 0 <= p < |pageTable| ==> NO_FRAME <= pageTable[p] < freeFrame) &&
    (forall p, q ::
       0 <= p < |pageTable| && 0 <= q < |pageTable| && pageTable[p] != NO_FRAME && pageTable[p] == pageTable[q]
       ==> p == q)
  }

  /** A mapped page's frame holds that page's bytes. */
  ghost predicate Loaded(memory: seq<SByte>, pageTable: seq<int>, store: Store)
  {
    forall p :: 0 <= p < |pageTable| && pageTable[p] != NO_FRAME ==> Holds(memory, pageTable[p], store, p)
  }

  /** The counters, and the FIFO cursor, which has advanced once per TLB miss. */
  ghost predicate Counted(m: Machine)
  {
    0 <= m.tlbHits && m.tlbHits + m.pageFaults <= m.totalAddresses &&
    0 <= m.tlbIndex < TLB_SIZE && m.tlbIndex == (m.totalAddresses - m.tlbHits) % TLB_SIZE
  }

  /** The invariant every address preserves. */
  ghost predicate Inv(m: Machine, store: Store)
  {
    |m.tlb| == TLB_SIZE && |m.pageTable| == PAGE_TABLE_SIZE && |m.memory| == MEMORY_SIZE &&
    FramesBelow(m.pageTable, m.freeFrame) &&
    |Mapped(m.pageTable)| == m.freeFrame == m.pageFaults &&
    Loaded(m.memory, m.pageTable, store) &&
    Unique(m.tlb) && TlbAgrees(m.tlb, m.pageTable) &&
    Counted(m)
  }

  lemma InitInv(store: Store)
    ensures Inv(Init(), store)
  {
    assert Mapped(Init().pageTable) == {};
  }

  /** At most 256 pages are mapped; when a page faults, a frame is still free. */
  lemma FreeFrameBound(m: Machine, store: Store, page: int)
    requires Inv(m, store) && 0 <= page < PAGE_TABLE_SIZE
    ensures m.pageFaults == m.freeFrame <= FRAME_COUNT
    ensures m.pageTable[page] == NO_FRAME ==> m.freeFrame < FRAME_COUNT
  {
    SubsetBelowCard(Mapped(m.pageTable), PAGE_TABLE_SIZE);
    if m.pageTable[page] == NO_FRAME {
      SubsetBelowCard(Mapped(m.pageTable) + {page}, PAGE_TABLE_SIZE);
    }
  }

  /** The frame the page resolves to: from the TLB on a hit, else from the page table, else the next free one. */
  function FrameFor(m: Machine, page: int): int
    requires |m.pageTable| == PAGE_TABLE_SIZE && 0 <= page < PAGE_TABLE_SIZE
  {
    match Find(m.tlb, page)
    case Some(i) => m.tlb[i].frame
    case None => if m.pageTable[page] != NO_FRAME then m.pageTable[page] else m.freeFrame
  }

  /** The state after a TLB hit: only the counters move. */
  function Hit(m: Machine): Machine
  {
    m.(totalAddresses := m.totalAddresses + 1, tlbHits := m.tlbHits + 1)
  }

  /** The state after a TLB miss on a page already in memory: its mapping goes into the TLB. */
  function Refill(m: Machine, page: int, frame: int): Machine
    requires 0 <= m.tlbIndex < |m.tlb|
  {
    m.(totalAddresses := m.totalAddresses + 1,
       tlb := Insert(m.tlb, m.tlbIndex, page, frame), tlbIndex := Advance(m.tlbIndex))
  }

  /**
   * The state after a page fault: the page is read from the store into the
   * frame at the bump cursor, the page table and the TLB are given the
   * mapping, and the cursor moves on.
   */
  function Faulted(m: Machine, store: Store, page: int): Machine
    requires Inv(m, store) && 0 <= page < PAGE_TABLE_SIZE && m.pageTable[page] == NO_FRAME
  {
    FreeFrameBound(m, store, page);
    m.(totalAddresses := m.totalAddresses + 1,
       pageFaults := m.pageFaults + 1,
       memory := LoadFrame(m.memory, m.freeFrame, PageBytes(store, page)),
       freeFrame := m.freeFrame + 1,
       pageTable := m.pageTable[page := m.freeFrame],
       tlb := Insert(m.tlb, m.tlbIndex, page, m.freeFrame), tlbIndex := Advance(m.tlbIndex))
  }

  /** What processing one input address does (the body of the main loop). */
  function Next(m: Machine, store: Store, raw: Int32): (Machine, Translation)
    requires Inv(m, store)
  {
    var a := Decode(raw);
    FreeFrameBound(m, store, a.page);
    var m' :=
      match Find(m.tlb, a.page)
      case Some(_) => Hit(m)
      case None =>
        if m.pageTable[a.page] != NO_FRAME then Refill(m, a.page, m.pageTable[a.page])
        else Faulted(m, store, a.page);
    var physical := FrameFor(m, a.page) * PAGE_SIZE + a.offset;
    (m', Translation(a.logical, physical, m'.memory[physical]))
  }

  /** Processing a whole input stream, one address after another. */
  function Run(m: Machine, store: Store, addresses: seq<Int32>): (r: (Machine, seq<Translation>))
    requires Inv(m, store)
    ensures Inv(r.0, store) && |r.1| == |addresses|
    decreases |addresses|
  {
    if addresses == [] then (m, [])
    else
      NextInv(m, store, addresses[0]);
      var (m', t) := Next(m, store, addresses[0]);
      var (final, ts) := Run(m', store, addresses[1..]);
      (final, [t] + ts)
  }

  /** The distinct pages an input stream refers to. */
  ghost function Pages(addresses: seq<Int32>): set<int>
  {
    if addresses == [] then {} else {Decode(addresses[0]).page} + Pages(addresses[1..])
  }

  lemma FaultFrames(pageTable: seq<int>, freeFrame: int, page: int)
    requires FramesBelow(pageTable, freeFrame) && 0 <= page < |pageTable| && pageTable[page] == NO_FRAME
    requires 0 <= freeFrame
    ensures FramesBelow(pageTable[page := freeFrame], freeFrame + 1)
    ensures Mapped(pageTable[page := freeFrame]) == Mapped(pageTable) + {page}
  {
    assert Mapped(pageTable[page := freeFrame]) == Mapped(pageTable) + {page};
  }

  lemma FaultLoaded(memory: seq<SByte>, pageTable: seq<int>, store: Store, freeFrame: int, page: int)
    requires Loaded(memory, pageTable, store) && FramesBelow(pageTable, freeFrame)
    requires 0 <= page < |pageTable| == PAGE_TABLE_SIZE
    requires 0 <= freeFrame && (freeFrame + 1) * PAGE_SIZE <= |memory|
    ensures Loaded(LoadFrame(memory, freeFrame, PageBytes(store, page)), pageTable[page := freeFrame], store)
  {
    var bytes := PageBytes(store, page);
    var memory' := LoadFrame(memory, freeFrame, bytes);
    var pageTable' := pageTable[page := freeFrame];
    forall p | 0 <= p < |pageTable'| && pageTable'[p] != NO_FRAME
      ensures Holds(memory', pageTable'[p], store, p)
    {
      if p != page {
        LoadFrameKeeps(memory, freeFrame, bytes, pageTable[p], store, p);
      }
    }
  }

  lemma MissTlb(m: Machine, pageTable: seq<int>, page: int, frame: int)
    requires |m.tlb| == TLB_SIZE && 0 <= m.tlbIndex < TLB_SIZE && Unique(m.tlb) && TlbAgrees(m.tlb, m.pageTable)
    requires Find(m.tlb, page).None? && 0 <= page < |pageTable| && pageTable[page] == frame != NO_FRAME
    requires |pageTable| == |m.pageTable|
    requires forall q :: 0 <= q < |pageTable| && m.pageTable[q] != NO_FRAME ==> pageTable[q] == m.pageTable[q]
    ensures Unique(Insert(m.tlb, m.tlbIndex, page, frame))
    ensures TlbAgrees(Insert(m.tlb, m.tlbIndex, page, frame), pageTable)
  {
    InsertOnMiss(m.tlb, m.tlbIndex, page, frame);
  }

  lemma NextInvHit(m: Machine, store: Store, raw: Int32)
    requires Inv(m, store) && Find(m.tlb, Decode(raw).page).Some?
    ensures Inv(Next(m, store, raw).0, store)
  {
    assert Next(m, store, raw).0 == Hit(m);
  }

  lemma NextInvTableHit(m: Machine, store: Store, raw: Int32)
    requires Inv(m, store) && Find(m.tlb, Decode(raw).page).None? && m.pageTable[Decode(raw).page] != NO_FRAME
    ensures Inv(Next(m, store, raw).0, store)
  {
    var a := Decode(raw);
    var frame := m.pageTable[a.page];
    MissTlb(m, m.pageTable, a.page, frame);
    AdvanceCounts(m.totalAddresses, m.tlbHits, m.tlbIndex);
    assert Next(m, store, raw).0 == Refill(m, a.page, frame);
  }

  lemma FaultedInv(m: Machine, store: Store, page: int)
    requires Inv(m, store) && 0 <= page < PAGE_TABLE_SIZE && m.pageTable[page] == NO_FRAME && Find(m.tlb, page).None?
    ensures Inv(Faulted(m, store, page), store)
  {
    var frame := m.freeFrame;
    FreeFrameBound(m, store, page);
    var pageTable' := m.pageTable[page := frame];
    FaultFrames(m.pageTable, m.freeFrame, page);
    FaultLoaded(m.memory, m.pageTable, store, m.freeFrame, page);
    MissTlb(m, pageTable', page, frame);
    MissCounted(m, Faulted(m, store, page));
  }

  /** A TLB miss that counts the address (and perhaps a fault) and advances the cursor keeps the counters consistent. */
  lemma MissCounted(m: Machine, m': Machine)
    requires Counted(m)
    requires m'.totalAddresses == m.totalAddresses + 1 && m'.tlbHits == m.tlbHits
    requires m.pageFaults <= m'.pageFaults <= m.pageFaults + 1 && m'.tlbIndex == Advance(m.tlbIndex)
    ensures Counted(m')
  {
    AdvanceCounts(m.totalAddresses, m.tlbHits, m.tlbIndex);
  }

  lemma NextInvFault(m: Machine, store: Store, raw: Int32)
    requires Inv(m, store) && Find(m.tlb, Decode(raw).page).None? && m.pageTable[Decode(raw).page] == NO_FRAME
    ensures Inv(Next(m, store, raw).0, store)
  {
    FaultedInv(m, store, Decode(raw).page);
    assert Next(m, store, raw).0 == Faulted(m, store, Decode(raw).page);
  }

  lemma NextInv(m: Machine, store: Store, raw: Int32)
    requires Inv(m, store)
    ensures Inv(Next(m, store, raw).0, store)
  {
    var page := Decode(raw).page;
    if Find(m.tlb, page).Some? {
      NextInvHit(m, store, raw);
    } else if m.pageTable[page] != NO_FRAME {
      NextInvTableHit(m, store, raw);
    } else {
      NextInvFault(m, store, raw);
    }
  }

  /**
   * Translation is correct: the physical address is the page's frame
   * (as the page table records it afterwards) times 256 plus the offset,
   * it lies inside the 64 KiB of physical memory, and the byte read is
   * the backing-store byte at the logical address.
   */
  lemma NextTranslates(m: Machine, store: Store, raw: Int32)
    requires Inv(m, store)
    ensures var (m', t) := Next(m, store, raw);
      t.logical == Decode(raw).logical &&
      m'.pageTable[Decode(raw).page] != NO_FRAME &&
      t.physical == m'.pageTable[Decode(raw).page] * PAGE_SIZE + Decode(raw).offset &&
      0 <= t.physical < MEMORY_SIZE &&
      t.value == store[t.logical]
  {
    var a := Decode(raw);
    var (m', t) := Next(m, store, raw);
    NextInv(m, store, raw);
    HoldsRead(m'.memory, m'.pageTable[a.page], store, a.page, a.offset);
  }

  /**
   * The counters: every address is counted; a TLB hit exactly when a
   * valid slot names the page; a page fault exactly when the page has no
   * frame. The FIFO cursor moves exactly on a TLB miss.
   */
  lemma NextCounts(m: Machine, store: Store, raw: Int32)
    requires Inv(m, store)
    ensures var m' := Next(m, store, raw).0; var page := Decode(raw).page;
      m'.totalAddresses == m.totalAddresses + 1 &&
      m'.tlbHits == m.tlbHits + (if exists j :: 0 <= j < TLB_SIZE && Names(m.tlb[j], page) then 1 else 0) &&
      m'.pageFaults == m.pageFaults + (if m.pageTable[page] == NO_FRAME then 1 else 0) &&
      m'.tlbIndex == (if m'.tlbHits == m.tlbHits then (m.tlbIndex + 1) % TLB_SIZE else m.tlbIndex)
  {
    var page := Decode(raw).page;
    FindHitsIff(m.tlb, page);
    if Find(m.tlb, page).Some? {
      var i := Find(m.tlb, page).value;
      assert m.pageTable[m.tlb[i].page] != NO_FRAME;
    }
  }

  /**
   * A page table entry is written only while it is -1 and never reset:
   * a mapped page keeps its frame, no other page's entry changes, and the
   * page just used is mapped. A faulting page gets the frame numbered by
   * the count of earlier faults, so frames go out as 0, 1, 2, ... in the
   * order of first faults.
   */
  lemma NextMaps(m: Machine, store: Store, raw: Int32)
    requires Inv(m, store)
    ensures var m' := Next(m, store, raw).0; var page := Decode(raw).page;
      (forall q :: 0 <= q < PAGE_TABLE_SIZE && (q != page || m.pageTable[q] != NO_FRAME) ==>
        m'.pageTable[q] == m.pageTable[q]) &&
      (m.pageTable[page] == NO_FRAME ==> m'.pageTable[page] == m.pageFaults && m'.freeFrame == m.freeFrame + 1) &&
      Mapped(m'.pageTable) == Mapped(m.pageTable) + {page}
  {
    var page := Decode(raw).page;
    var m' := Next(m, store, raw).0;
    if Find(m.tlb, page).Some? {
      var i := Find(m.tlb, page).value;
      assert m.pageTable[m.tlb[i].page] != NO_FRAME;
    }
    assert Mapped(m'.pageTable) == Mapped(m.pageTable) + {page};
  }

  /** Over a run, the mapped pages grow by exactly the pages referred to. */
  lemma {:induction false} RunMaps(m: Machine, store: Store, addresses: seq<Int32>)
    requires Inv(m, store)
    ensures Mapped(Run(m, store, addresses).0.pageTable) == Mapped(m.pageTable) + Pages(addresses)
    decreases |addresses|
  {
    if addresses != [] {
      NextInv(m, store, addresses[0]);
      NextMaps(m, store, addresses[0]);
      RunMaps(Next(m, store, addresses[0]).0, store, addresses[1..]);
    }
  }

  /**
   * Each page faults at most once, and at least once if it is used: from
   * the initial state, the number of page faults after a run is the number
   * of distinct pages it refers to (so never more than 256).
   */
  lemma FaultsArePages(store: Store, addresses: seq<Int32>)
    ensures (InitInv(store); Run(Init(), store, addresses).0.pageFaults == |Pages(addresses)| <= PAGE_TABLE_SIZE)
  {
    InitInv(store);
    RunMaps(Init(), store, addresses);
    assert Mapped(Init().pageTable) == {};
    FreeFrameBound(Run(Init(), store, addresses).0, store, 0);
  }

  /** Running a stream that starts with `raw` is one step and then the run of the rest. */
  lemma RunCons(m: Machine, store: Store, raw: Int32, rest: seq<Int32>)
    requires Inv(m, store)
    ensures (NextInv(m, store, raw);
      Run(m, store, [raw] + rest) ==
        (Run(Next(m, store, raw).0, store, rest).0, [Next(m, store, raw).1] + Run(Next(m, store, raw).0, store, rest).1))
  {
    assert ([raw] + rest)[0] == raw;
    assert ([raw] + rest)[1..] == rest;
  }

  /** Running a stream and then one more address is running the longer stream. */
  lemma {:induction false} RunSnoc(m: Machine, store: Store, addresses: seq<Int32>, raw: Int32)
    requires Inv(m, store)
    ensures Run(m, store, addresses + [raw]).0 == Next(Run(m, store, addresses).0, store, raw).0
    ensures Run(m, store, addresses + [raw]).1 == Run(m, store, addresses).1 + [Next(Run(m, store, addresses).0, store, raw).1]
    decreases |addresses|
  {
    var longer := addresses + [raw];
    if addresses == [] {
      assert longer[0] == raw && longer[1..] == [];
      NextInv(m, store, raw);
    } else {
      assert longer[0] == addresses[0];
      assert longer[1..] == addresses[1..] + [raw];
      NextInv(m, store, addresses[0]);
      var (m1, t1) := Next(m, store, addresses[0]);
      RunSnoc(m1, store, addresses[1..], raw);
      var out := Run(m1, store, addresses[1..]).1;
      var t := Next(Run(m1, store, addresses[1..]).0, store, raw).1;
      assert [t1] + (out + [t]) == ([t1] + out) + [t];
    }
  }

  /** The run of the first k + 1 addresses is the run of the first k and one more step. */
  lemma RunPrefix(m: Machine, store: Store, addresses: seq<Int32>, k: int)
    requires Inv(m, store) && 0 <= k < |addresses|
    ensures Run(m, store, addresses[..k + 1]).0 == Next(Run(m, store, addresses[..k]).0, store, addresses[k]).0
    ensures Run(m, store, addresses[..k + 1]).1 ==
      Run(m, store, addresses[..k]).1 + [Next(Run(m, store, addresses[..k]).0, store, addresses[k]).1]
  {
    assert addresses[..k] + [addresses[k]] == addresses[..k + 1];
    RunSnoc(m, store, addresses[..k], addresses[k]);
  }

  /** Every line a run produces is a correct translation of its input address. */
  lemma {:induction false} RunTranslates(m: Machine, store: Store, addresses: seq<Int32>)
    requires Inv(m, store)
    ensures var out := Run(m, store, addresses).1;
      forall k :: 0 <= k < |addresses| ==>
        out[k].logical == Decode(addresses[k]).logical && 0 <= out[k].physical < MEMORY_SIZE &&
        out[k].value == store[out[k].logical]
    ensures Run(m, store, addresses).0.totalAddresses == m.totalAddresses + |addresses|
    decreases |addresses|
  {
    if addresses != [] {
      NextInv(m, store, addresses[0]);
      NextTranslates(m, store, addresses[0]);
      RunTranslates(Next(m, store, addresses[0]).0, store, addresses[1..]);
      var out := Run(m, store, addresses).1;
      forall k | 0 <= k < |addresses|
        ensures out[k].logical == Decode(addresses[k]).logical && 0 <= out[k].physical < MEMORY_SIZE &&
          out[k].value == store[out[k].logical]
      {
        if k > 0 {
          assert addresses[k] == addresses[1..][k - 1];
        }
      }
    }
  }

  /** The fixed simulator over its global arrays. */
  class Simulator {
    const store: Store
    const tlb: array<Entry>
    const pageTable: array<int>
    const physicalMemory: array<SByte>
    var tlbIndex: int
    var freeFrame: int
    var totalAddresses: int
    var tlbHits: int
    var pageFaults: int

    /** The state as a value. */
    ghost function State(): Machine
      reads this, tlb, pageTable, physicalMemory
    {
      Machine(tlb[..], tlbIndex, pageTable[..], physicalMemory[..], freeFrame, totalAddresses, tlbHits, pageFaults)
    }

    ghost predicate Valid()
      reads this, tlb, pageTable, physicalMemory
    {
      Inv(State(), store)
    }

    /** The set-up before the main loop: all page-table entries -1, all TLB slots invalid. */
    constructor (store: Store)
      ensures this.store == store && Valid() && State() == Init()
      ensures fresh(tlb) && fresh(pageTable) && fresh(physicalMemory)
    {
      this.store := store;
      var table := new int[PAGE_TABLE_SIZE];
      for i := 0 to PAGE_TABLE_SIZE
        invariant forall p :: 0 <= p < i ==> table[p] == NO_FRAME
      {
        table[i] := NO_FRAME;
      }
      assert table[..] == Init().pageTable;
      var slots := new Entry[TLB_SIZE](_ => Empty);
      assert slots[..] == Init().tlb;
      var memory := new SByte[MEMORY_SIZE](_ => 0);
      assert memory[..] == Init().memory;
      tlb, pageTable, physicalMemory := slots, table, memory;
      tlbIndex, freeFrame, totalAddresses, tlbHits, pageFaults := 0, 0, 0, 0, 0;
      new;
      InitInv(store);
    }

    /**
     * The TLB-miss path of one iteration, after the address has been
     * counted: the page-table lookup, the page fault if the page has no
     * frame, and the FIFO insert into the TLB.
     */
    method ServeMiss(ghost s: Machine, page: int) returns (frame: int)
      requires Inv(s, store) && 0 <= page < PAGE_TABLE_SIZE && Find(s.tlb, page).None?
      requires State() == s.(totalAddresses := s.totalAddresses + 1)
      modifies this, tlb, pageTable, physicalMemory
      ensures frame == FrameFor(s, page)
      ensures State() == if s.pageTable[page] != NO_FRAME then Refill(s, page, frame) else Faulted(s, store, page)
    {
      FreeFrameBound(s, store, page);
      if pageTable[page] != NO_FRAME {
        frame := pageTable[page];
      } else {
        pageFaults := pageFaults + 1;
        var buffer := PageBytes(store, page);
        frame := freeFrame;
        freeFrame := freeFrame + 1;
        CopyPage(physicalMemory, frame, buffer);
        pageTable[page] := frame;
      }
      tlb[tlbIndex] := Entry(page, frame, true);
      tlbIndex := Advance(tlbIndex);
    }

    /** One iteration of the main loop: translate `raw` and read the byte it names. */
    method Step(raw: Int32) returns (t: Translation)
      requires Valid()
      modifies this, tlb, pageTable, physicalMemory
      ensures Valid()
      ensures (State(), t) == Next(old(State()), store, raw)
      ensures t.value == store[t.logical]
    {
      ghost var s := State();
      FreeFrameBound(s, store, Decode(raw).page);
      totalAddresses := totalAddresses + 1;
      var a := Decode(raw);
      var frame := NO_FRAME;
      var slot := Lookup(tlb, a.page);
      if slot.Some? {
        frame := tlb[slot.value].frame;
        tlbHits := tlbHits + 1;
        assert State() == Hit(s);
      } else {
        frame := ServeMiss(s, a.page);
      }
      assert frame == FrameFor(s, a.page);
      var physical := frame * PAGE_SIZE + a.offset;
      t := Translation(a.logical, physical, physicalMemory[physical]);
      assert Next(s, store, raw).0 == State();
      assert Next(s, store, raw).1 == t;
      NextInv(s, store, raw);
      NextTranslates(s, store, raw);
    }

    /** The main loop over the whole input stream. */
    method ProcessStream(addresses: seq<Int32>) returns (out: seq<Translation>)
      requires Valid()
      modifies this, tlb, pageTable, physicalMemory
      ensures Valid()
      ensures (State(), out) == Run(old(State()), store, addresses)
    {
      out := [];
      ghost var start := State();
      assert addresses[..0] == [];
      for k := 0 to |addresses|
        invariant Valid()
        invariant Run(start, store, addresses[..k]).0 == State() && Run(start, store, addresses[..k]).1 == out
      {
        RunPrefix(start, store, addresses, k);
        var t := Step(addresses[k]);
        out := out + [t];
      }
      assert addresses[..|addresses|] == addresses;
    }
  }

  /**
   * The whole program on a backing store and an input stream: one correct
   * translation per address, and the summary's counters, where the page
   * faults are exactly the distinct pages referred to.
   */
  method Simulate(store: Store, addresses: seq<Int32>) returns (r: Report)
    ensures (InitInv(store); r.lines == Run(Init(), store, addresses).1)
    ensures forall k :: 0 <= k < |addresses| ==>
      r.lines[k].logical == Decode(addresses[k]).logical && r.lines[k].value == store[r.lines[k].logical]
    ensures r.totalAddresses == |addresses| && r.pageFaults == |Pages(addresses)| <= PAGE_TABLE_SIZE
    ensures (InitInv(store); r.tlbHits == Run(Init(), store, addresses).0.tlbHits)
    ensures 0 <= r.tlbHits && r.tlbHits + r.pageFaults <= r.totalAddresses
  {
    var sim := new Simulator(store);
    var out := sim.ProcessStream(addresses);
    InitInv(store);
    RunTranslates(Init(), store, addresses);
    FaultsArePages(store, addresses);
    return Report(out, sim.totalAddresses, sim.pageFaults, sim.tlbHits);
  }
}
