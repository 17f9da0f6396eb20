/**
 * The 16-entry translation lookaside buffer. Both variants of the
 * simulator keep it in a global array that they scan linearly, fill in
 * FIFO order at a cursor, and (in the LRU variant) clear one entry of
 * when the page it names loses its frame. The array is passed to these
 * operations by reference.
 */
module Tlb {
  import opened Paging

  /** One TLB slot. */
  datatype Entry = Entry(page: int, frame: int, valid: bool)

  /** A slot of the zero-initialised global array: not valid. */
  const Empty: Entry := Entry(0, 0, false)

  /** The slot is valid and names `page`. */
  predicate Names(e: Entry, page: int)
  {
    e.valid && e.page == page
  }

  /** The first slot at or after `from` that names `page`, as the scan loop finds it. */
  function FindFrom(tlb: seq<Entry>, page: int, from: nat): (r: Option<nat>)
    requires from <= |tlb|
    ensures r.Some? ==> from <= r.value < |tlb| && Names(tlb[r.value], page)
    ensures r.Some? ==> forall j :: from <= j < r.value ==> !Names(tlb[j], page)
    ensures r.None? ==> forall j :: from <= j < |tlb| ==> !Names(tlb[j], page)
    decreases |tlb| - from
  {
    if from == |tlb| then None
    else if Names(tlb[from], page) then Some(from)
    else FindFrom(tlb, page, from + 1)
  }

  /** The lookup: the first valid slot naming `page`, or None on a TLB miss. */
  function Find(tlb: seq<Entry>, page: int): Option<nat>
  {
    FindFrom(tlb, page, 0)
  }

  /** The TLB after a FIFO insert of `page -> frame` at slot `index`: that slot is overwritten, no other changes. */
  function Insert(tlb: seq<Entry>, index: int, page: int, frame: int): (r: seq<Entry>)
    requires 0 <= index < |tlb|
    ensures |r| == |tlb| && r[index] == Entry(page, frame, true)
  {
    tlb[index := Entry(page, frame, true)]
  }

  /** The FIFO cursor after an insert: the next slot, wrapping from the last slot to the first. */
  function Advance(index: int): (r: int)
    ensures 0 <= r < TLB_SIZE
    ensures 0 <= index < TLB_SIZE - 1 ==> r == index + 1
    ensures index == TLB_SIZE - 1 ==> r == 0
  {
    (index + 1) % TLB_SIZE
  }

  /** A cursor that advances once per TLB miss stays equal to the number of misses modulo 16. */
  lemma AdvanceCounts(total: int, hits: int, index: int)
    requires index == (total - hits) % TLB_SIZE
    ensures Advance(index) == (total + 1 - hits) % TLB_SIZE
  {
  }

  /**
   * The TLB after clearing the first valid slot that names `page` (the
   * eviction loop with `break`): only that slot loses its valid flag.
   */
  function Invalidate(tlb: seq<Entry>, page: int): (r: seq<Entry>)
    ensures |r| == |tlb|
    ensures forall j :: 0 <= j < |tlb| ==>
      r[j].page == tlb[j].page && r[j].frame == tlb[j].frame &&
      (r[j].valid <==> tlb[j].valid && Find(tlb, page) != Some(j))
  {
    match Find(tlb, page)
    case None => tlb
    case Some(i) => tlb[i := tlb[i].(valid := false)]
  }

  /** At most one valid slot per page. */
  ghost predicate Unique(tlb: seq<Entry>)
  {
    forall i, j :: 0 <= i < |tlb| && 0 <= j < |tlb| && tlb[i].valid && tlb[j].valid && tlb[i].page == tlb[j].page ==> i == j
  }

  /** The lookup hits exactly when some valid slot names the page. */
  lemma FindHitsIff(tlb: seq<Entry>, page: int)
    ensures Find(tlb, page).Some? <==> exists j :: 0 <= j < |tlb| && Names(tlb[j], page)
  {
    if Find(tlb, page).None? {
      assert forall j :: 0 <= j < |tlb| ==> !Names(tlb[j], page);
    }
  }

  /**
   * With at most one valid slot per page, clearing the first match removes
   * every valid slot for the page; all other slots stay as they were, and
   * uniqueness is kept.
   */
  lemma InvalidateClears(tlb: seq<Entry>, page: int)
    requires Unique(tlb)
    ensures |Invalidate(tlb, page)| == |tlb|
    ensures Unique(Invalidate(tlb, page))
    ensures forall j :: 0 <= j < |tlb| ==>
      Invalidate(tlb, page)[j].valid == (tlb[j].valid && tlb[j].page != page) &&
      Invalidate(tlb, page)[j].page == tlb[j].page &&
      Invalidate(tlb, page)[j].frame == tlb[j].frame
  {
  }

  /**
   * Inserting a page that missed keeps at most one valid slot per page,
   * and the page is then found at the slot written.
   */
  lemma InsertOnMiss(tlb: seq<Entry>, index: int, page: int, frame: int)
    requires Unique(tlb) && 0 <= index < |tlb| && Find(tlb, page).None?
    ensures Unique(Insert(tlb, index, page, frame))
    ensures Find(Insert(tlb, index, page, frame), page) == Some(index)
  {
    var t := Insert(tlb, index, page, frame);
    assert Names(t[index], page);
  }

  /** The scan loop over the array: the first valid slot naming `page`. */
  method Lookup(tlb: array<Entry>, page: int) returns (slot: Option<nat>)
    ensures slot == Find(tlb[..], page)
    ensures slot.Some? ==> slot.value < tlb.Length && Names(tlb[slot.value], page)
  {
    var i := 0;
    while i < tlb.Length
      invariant 0 <= i <= tlb.Length
      invariant FindFrom(tlb[..], page, i) == Find(tlb[..], page)
    {
      if tlb[i].valid && tlb[i].page == page {
        return Some(i);
      }
      i := i + 1;
    }
    return None;
  }

  /** The eviction loop: clear the first valid slot naming `page`, then stop. */
  method InvalidatePage(tlb: array<Entry>, page: int)
    modifies tlb
    ensures tlb[..] == Invalidate(old(tlb[..]), page)
  {
    var i := 0;
    while i < tlb.Length
      invariant 0 <= i <= tlb.Length
      invariant tlb[..] == old(tlb[..])
      invariant FindFrom(tlb[..], page, i) == Find(tlb[..], page)
    {
      if tlb[i].valid && tlb[i].page == page {
        tlb[i] := tlb[i].(valid := false);
        break;
      }
      i := i + 1;
    }
  }
}
