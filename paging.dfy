/**
 * Definitions shared by both variants of the virtual-memory simulator:
 * the geometry of the address space, the decoding of a logical address,
 * the record emitted per address, and the copy of one page into a frame.
 */
module Paging {

  /** Bytes per page and per frame. */
  const PAGE_SIZE: int := 256
  /** Entries in the page table: one per logical page. */
  const PAGE_TABLE_SIZE: int := 256
  /** Entries in the translation lookaside buffer. */
  const TLB_SIZE: int := 16
  /** Size of the 16-bit logical address space (ADDRESS_MASK + 1). */
  const ADDRESS_SPACE: int := 0x1_0000
  /** The largest C `int`, the LRU scan's initial minimum. */
  const INT_MAX: int := 0x7FFF_FFFF

  /** A C `signed char`, the type of every byte of memory and of the backing store. */
  type SByte = x: int | -128 <= x < 128

  /** A C `int`, the type `fscanf("%d")` reads each logical address into. */
  type Int32 = x: int | -0x8000_0000 <= x < 0x8000_0000

  /** The backing store: 256 pages of 256 bytes, read-only. */
  type Store = s: seq<SByte> | |s| == ADDRESS_SPACE witness seq(ADDRESS_SPACE, _ => 0)

  datatype Option<T> = None | Some(value: T)

  datatype Result<T> = Ok(value: T) | Err(msg: string)

  /** A decoded logical address. */
  datatype Address = Address(logical: int, page: int, offset: int)

  /** One output line: the masked logical address, the physical address and the byte read. */
  datatype Translation = Translation(logical: int, physical: int, value: SByte)

  /** Everything a run prints: one line per address, then the three counters of the summary. */
  datatype Report = Report(lines: seq<Translation>, totalAddresses: int, pageFaults: int, tlbHits: int)

  /**
   * Masks an input to its low 16 bits and splits it into page number and
   * offset. On a two's complement 32-bit int, `raw & 0xFFFF` is `raw`
   * modulo 2^16 (Dafny's `%` is Euclidean, so never negative); on that
   * non-negative value `>> 8` is division by 256 and `& 0xFF` is the
   * remainder modulo 256.
   */
  function Decode(raw: Int32): (a: Address)
    ensures 0 <= a.logical < ADDRESS_SPACE
    ensures (a.logical - raw) % ADDRESS_SPACE == 0
    ensures 0 <= a.page < PAGE_TABLE_SIZE && 0 <= a.offset < PAGE_SIZE
    ensures a.page * PAGE_SIZE + a.offset == a.logical
  {
    var logical := raw % ADDRESS_SPACE;
    Address(logical, logical / PAGE_SIZE, logical % PAGE_SIZE)
  }

  /** Decoding depends on the low 16 bits only, and a 16-bit value decodes to itself. */
  lemma DecodeWraps(raw: Int32, k: int)
    requires -0x8000_0000 <= raw + k * ADDRESS_SPACE < 0x8000_0000
    ensures Decode(raw + k * ADDRESS_SPACE) == Decode(raw)
    ensures 0 <= raw < ADDRESS_SPACE ==> Decode(raw).logical == raw
  {
    assert (raw + k * ADDRESS_SPACE) % ADDRESS_SPACE == raw % ADDRESS_SPACE;
  }

  /** The 256 bytes of logical page `page` in the backing store (the `fseek`/`fread` pair). */
  function PageBytes(store: Store, page: int): (b: seq<SByte>)
    requires 0 <= page < PAGE_TABLE_SIZE
    ensures |b| == PAGE_SIZE
    ensures forall k :: 0 <= k < PAGE_SIZE ==> b[k] == store[page * PAGE_SIZE + k]
  {
    store[page * PAGE_SIZE .. page * PAGE_SIZE + PAGE_SIZE]
  }

  /** Physical memory after copying `page` into frame `frame`. */
  function LoadFrame(memory: seq<SByte>, frame: int, page: seq<SByte>): (m: seq<SByte>)
    requires |page| == PAGE_SIZE
    requires 0 <= frame && (frame + 1) * PAGE_SIZE <= |memory|
    ensures |m| == |memory|
    ensures m[frame * PAGE_SIZE .. frame * PAGE_SIZE + PAGE_SIZE] == page
    ensures forall a :: 0 <= a < |memory| && !(frame * PAGE_SIZE <= a < frame * PAGE_SIZE + PAGE_SIZE) ==> m[a] == memory[a]
  {
    seq(|memory|, a requires 0 <= a < |memory| =>
      if frame * PAGE_SIZE <= a < frame * PAGE_SIZE + PAGE_SIZE then page[a - frame * PAGE_SIZE] else memory[a])
  }

  /** The page-copy loop: `memory[frame * 256 + i] = buffer[i]` for i in 0 .. 255. */
  method CopyPage(memory: array<SByte>, frame: int, buffer: seq<SByte>)
    requires |buffer| == PAGE_SIZE
    requires 0 <= frame && (frame + 1) * PAGE_SIZE <= memory.Length
    modifies memory
    ensures memory[..] == LoadFrame(old(memory[..]), frame, buffer)
  {
    var base := frame * PAGE_SIZE;
    for i := 0 to PAGE_SIZE
      invariant forall a :: 0 <= a < memory.Length ==>
        memory[a] == if base <= a < base + i then buffer[a - base] else old(memory[a])
    {
      memory[base + i] := buffer[i];
    }
    assert memory[..] == LoadFrame(old(memory[..]), frame, buffer);
  }

  /** Frame `frame` of `memory` holds exactly the bytes of logical page `page`. */
  ghost predicate Holds(memory: seq<SByte>, frame: int, store: Store, page: int)
  {
    0 <= frame && (frame + 1) * PAGE_SIZE <= |memory| && 0 <= page < PAGE_TABLE_SIZE &&
    memory[frame * PAGE_SIZE .. frame * PAGE_SIZE + PAGE_SIZE] == PageBytes(store, page)
  }

  /** Reading offset `k` of a frame that holds a page reads the store at that logical address. */
  lemma HoldsRead(memory: seq<SByte>, frame: int, store: Store, page: int, k: int)
    requires Holds(memory, frame, store, page) && 0 <= k < PAGE_SIZE
    ensures frame * PAGE_SIZE + k < |memory|
    ensures memory[frame * PAGE_SIZE + k] == store[page * PAGE_SIZE + k]
  {
    assert memory[frame * PAGE_SIZE .. frame * PAGE_SIZE + PAGE_SIZE][k] == PageBytes(store, page)[k];
  }

  /** Loading a frame leaves what every other frame holds in place. */
  lemma LoadFrameKeeps(memory: seq<SByte>, frame: int, bytes: seq<SByte>, other: int, store: Store, page: int)
    requires |bytes| == PAGE_SIZE && 0 <= frame && (frame + 1) * PAGE_SIZE <= |memory|
    requires Holds(memory, other, store, page) && other != frame
    ensures Holds(LoadFrame(memory, frame, bytes), other, store, page)
  {
    var m := LoadFrame(memory, frame, bytes);
    var lo := other * PAGE_SIZE;
    assert other < frame || frame < other;
    assert forall a | lo <= a < lo + PAGE_SIZE :: m[a] == memory[a];
    assert m[lo .. lo + PAGE_SIZE] == memory[lo .. lo + PAGE_SIZE];
  }

  /** The numbers 0 .. n-1. */
  ghost function Below(n: nat): (s: set<int>)
    ensures forall x :: x in s <==> 0 <= x < n
    ensures |s| == n
  {
    if n == 0 then {} else Below(n - 1) + {n - 1}
  }

  /** A set of numbers below `n` has at most `n` members. */
  lemma SubsetBelowCard(s: set<int>, n: nat)
    requires forall x :: x in s ==> 0 <= x < n
    ensures |s| <= n
  {
    assert s <= Below(n);
    SubsetCard(s, Below(n));
  }

  lemma SubsetCard(a: set<int>, b: set<int>)
    requires a <= b
    ensures |a| <= |b|
  {
    assert b == a + (b - a);
  }
}
