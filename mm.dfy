/**
 * The memory-management collaborator the hypervisor drives (`axmm::AddrSpace`
 * and its page table).  The crate is not part of this model; this module gives
 * it a small reference semantics: a list of mapped areas, a page table keyed by
 * virtual page number, and the argument checks that decide whether
 * `map_alloc` and `map_linear` return `InvalidInput`, `AlreadyExists`,
 * `NoMemory` or `Ok`.  Huge pages and unmapping are not modelled.
 */
module Mm {
  import opened Results

  const PAGE_SIZE_4K: nat := 0x1000

  datatype MappingFlag = Read | Write | Execute | User
  /** `READ | WRITE | EXECUTE | USER`, the flags of every mapping the hypervisor makes. */
  const RWXU: set<MappingFlag> := {Read, Write, Execute, User}

  datatype Backend = Linear | Alloc(populate: bool)
  datatype MemArea = MemArea(start: nat, size: nat, flags: set<MappingFlag>, backend: Backend)

  /** A leaf entry: the physical frame number a virtual page maps to. */
  datatype Pte = Pte(frame: nat, flags: set<MappingFlag>)
  /** Keyed by virtual page number. */
  type PageTable = map<nat, Pte>

  datatype AxError = InvalidInput | AlreadyExists | NoMemory
  datatype PagingError = NotMapped

  /** The value of an address space: its virtual range [base, end), its areas and its page table. */
  datatype Mappings = Mappings(base: nat, end: nat, areas: seq<MemArea>, pt: PageTable)

  predicate IsAligned4K(x: nat)
  {
    x % PAGE_SIZE_4K == 0
  }

  /** `page_table().query(va)`: the physical address `va` translates to. */
  function Query(pt: PageTable, va: nat): (r: Result<nat, PagingError>)
    ensures r.Ok? <==> va / PAGE_SIZE_4K in pt
    ensures r.Err? ==> r.error == NotMapped
  {
    var vpn := va / PAGE_SIZE_4K;
    if vpn in pt then Ok(pt[vpn].frame * PAGE_SIZE_4K + va % PAGE_SIZE_4K) else Err(NotMapped)
  }

  /** A translated address lies in the frame of va's page, at va's offset within the page. */
  lemma QueryFrameAndOffset(pt: PageTable, va: nat)
    requires Query(pt, va).Ok?
    ensures Query(pt, va).value / PAGE_SIZE_4K == pt[va / PAGE_SIZE_4K].frame
    ensures Query(pt, va).value % PAGE_SIZE_4K == va % PAGE_SIZE_4K
  {
  }

  predicate Contains(a: MemArea, va: nat)
  {
    a.start <= va < a.start + a.size
  }

  predicate Overlaps(a: MemArea, start: nat, size: nat)
  {
    start < a.start + a.size && a.start < start + size
  }

  predicate OverlapsAny(areas: seq<MemArea>, start: nat, size: nat)
  {
    exists i | 0 <= i < |areas| :: Overlaps(areas[i], start, size)
  }

  predicate InRange(m: Mappings, start: nat, size: nat)
  {
    m.base <= start && start + size <= m.end
  }

  /** Every page-table entry lies inside some area: the page table is only ever filled by mapping an area. */
  ghost predicate Covered(m: Mappings)
  {
    forall vpn | vpn in m.pt :: exists i | 0 <= i < |m.areas| :: Contains(m.areas[i], vpn * PAGE_SIZE_4K)
  }

  /** The virtual page numbers vpn0, vpn0 + 1, ..., vpn0 + pages - 1. */
  function PageNumbers(vpn0: nat, pages: nat): (r: set<nat>)
    ensures forall vpn :: vpn in r <==> vpn0 <= vpn < vpn0 + pages
    decreases pages
  {
    if pages == 0 then {} else {vpn0} + PageNumbers(vpn0 + 1, pages - 1)
  }

  function LinearEntries(vpn0: nat, pfn0: nat, pages: nat, flags: set<MappingFlag>): PageTable
  {
    map vpn | vpn in PageNumbers(vpn0, pages) :: Pte(pfn0 + (vpn - vpn0), flags)
  }

  function AllocEntries(vpn0: nat, frames: seq<nat>, pages: nat, flags: set<MappingFlag>): PageTable
    requires pages <= |frames|
  {
    map vpn | vpn in PageNumbers(vpn0, pages) :: Pte(frames[vpn - vpn0], flags)
  }

  /** The checks `map_linear` and `map_alloc` share, in the order they are made. */
  function CheckArea(m: Mappings, start: nat, size: nat, alignedOk: bool): Result<(), AxError>
  {
    if !InRange(m, start, size) then Err(InvalidInput)
    else if !alignedOk || !IsAligned4K(start) || !IsAligned4K(size) then Err(InvalidInput)
    else if size == 0 then Err(InvalidInput)
    else if OverlapsAny(m.areas, start, size) then Err(AlreadyExists)
    else Ok(())
  }

  /** `map_linear(va, pa, size, flags)`: maps [va, va + size) onto [pa, pa + size). */
  function MapLinearSpec(m: Mappings, va: nat, pa: nat, size: nat, flags: set<MappingFlag>): (r: Result<Mappings, AxError>)
    ensures r.Ok? ==> forall v | va <= v < va + size :: Query(r.value.pt, v) == Ok(pa + (v - va))
    ensures r.Ok? ==> forall v: nat | v < va || va + size <= v :: Query(r.value.pt, v) == Query(m.pt, v)
    ensures r.Ok? ==> r.value.areas == m.areas + [MemArea(va, size, flags, Linear)]
    ensures r.Ok? <==> CheckArea(m, va, size, IsAligned4K(pa)).Ok?
    ensures r == Err(AlreadyExists) <==>
      InRange(m, va, size) && IsAligned4K(va) && IsAligned4K(pa) && IsAligned4K(size) && size > 0
      && OverlapsAny(m.areas, va, size)
  {
    match CheckArea(m, va, size, IsAligned4K(pa))
    case Err(e) => Err(e)
    case Ok(_) =>
      var entries := LinearEntries(va / PAGE_SIZE_4K, pa / PAGE_SIZE_4K, size / PAGE_SIZE_4K, flags);
      var r := m.(areas := m.areas + [MemArea(va, size, flags, Linear)], pt := m.pt + entries);
      assert forall v | va <= v < va + size :: Query(r.pt, v) == Ok(pa + (v - va)) by {
        forall v | va <= v < va + size ensures Query(r.pt, v) == Ok(pa + (v - va)) {
          PageArithmetic(va, pa, size, v);
        }
      }
      assert forall v: nat | v < va || va + size <= v :: Query(r.pt, v) == Query(m.pt, v) by {
        forall v: nat | v < va || va + size <= v ensures Query(r.pt, v) == Query(m.pt, v) {
          OutsidePages(va, size, v);
        }
      }
      Ok(r)
  }

  /** Page arithmetic for an aligned range: `v` in [va, va + size) lies on page `va/4K + (v - va)/4K`. */
  lemma PageArithmetic(va: nat, pa: nat, size: nat, v: nat)
    requires IsAligned4K(va) && IsAligned4K(pa) && IsAligned4K(size) && va <= v < va + size
    ensures va / PAGE_SIZE_4K <= v / PAGE_SIZE_4K < va / PAGE_SIZE_4K + size / PAGE_SIZE_4K
    ensures (pa / PAGE_SIZE_4K + (v / PAGE_SIZE_4K - va / PAGE_SIZE_4K)) * PAGE_SIZE_4K + v % PAGE_SIZE_4K
      == pa + (v - va)
  {
  }

  /** The k-th page of an aligned range starting at `start`. */
  lemma NthPage(start: nat, k: nat)
    requires IsAligned4K(start)
    ensures (start + k * PAGE_SIZE_4K) / PAGE_SIZE_4K == start / PAGE_SIZE_4K + k
    ensures (start + k * PAGE_SIZE_4K) % PAGE_SIZE_4K == 0
  {
  }

  lemma OutsidePages(va: nat, size: nat, v: nat)
    requires IsAligned4K(va) && IsAligned4K(size) && (v < va || va + size <= v)
    ensures !(va / PAGE_SIZE_4K <= v / PAGE_SIZE_4K < va / PAGE_SIZE_4K + size / PAGE_SIZE_4K)
  {
  }

  /** `map_alloc(start, size, flags, populate)`; `frames` are the frames the allocator hands out, in order. */
  function MapAllocSpec(m: Mappings, start: nat, size: nat, flags: set<MappingFlag>, populate: bool, frames: seq<nat>)
    : (r: Result<Mappings, AxError>)
    ensures r.Ok? <==> CheckArea(m, start, size, true).Ok? && (populate ==> size / PAGE_SIZE_4K <= |frames|)
    ensures r.Ok? ==> r.value.areas == m.areas + [MemArea(start, size, flags, Alloc(populate))]
    ensures r.Ok? && populate ==>
      forall k | 0 <= k < size / PAGE_SIZE_4K :: Query(r.value.pt, start + k * PAGE_SIZE_4K) == Ok(frames[k] * PAGE_SIZE_4K)
    ensures r.Ok? && !populate ==> r.value.pt == m.pt
    ensures r.Ok? ==> forall v: nat | v < start || start + size <= v :: Query(r.value.pt, v) == Query(m.pt, v)
    ensures r.Ok? ==> r.value.base == m.base && r.value.end == m.end
    ensures CheckArea(m, start, size, true).Err? ==> r == Err(CheckArea(m, start, size, true).error)
    ensures CheckArea(m, start, size, true).Ok? && populate && |frames| < size / PAGE_SIZE_4K ==> r == Err(NoMemory)
  {
    match CheckArea(m, start, size, true)
    case Err(e) => Err(e)
    case Ok(_) =>
      var pages := size / PAGE_SIZE_4K;
      if populate && |frames| < pages then Err(NoMemory)
      else
        var entries := if populate then AllocEntries(start / PAGE_SIZE_4K, frames, pages, flags) else map[];
        var r := m.(areas := m.areas + [MemArea(start, size, flags, Alloc(populate))], pt := m.pt + entries);
        if populate then
          AllocEntriesTranslate(m.pt, start, frames, pages, flags);
          AllocEntriesOutside(m.pt, start, size, frames, flags);
          Ok(r)
        else
          Ok(r)
  }

  /** Page k of an aligned region installed from `frames` translates to frame k. */
  lemma AllocEntriesTranslate(pt: PageTable, start: nat, frames: seq<nat>, pages: nat, flags: set<MappingFlag>)
    requires IsAligned4K(start) && pages <= |frames|
    ensures forall k | 0 <= k < pages ::
      Query(pt + AllocEntries(start / PAGE_SIZE_4K, frames, pages, flags), start + k * PAGE_SIZE_4K) == Ok(frames[k] * PAGE_SIZE_4K)
  {
    var entries := AllocEntries(start / PAGE_SIZE_4K, frames, pages, flags);
    forall k | 0 <= k < pages ensures Query(pt + entries, start + k * PAGE_SIZE_4K) == Ok(frames[k] * PAGE_SIZE_4K) {
      NthPage(start, k);
      assert start / PAGE_SIZE_4K + k in entries;
    }
  }

  /** Installing the entries of an aligned region leaves every address outside it translating as before. */
  lemma AllocEntriesOutside(pt: PageTable, start: nat, size: nat, frames: seq<nat>, flags: set<MappingFlag>)
    requires IsAligned4K(start) && IsAligned4K(size) && size / PAGE_SIZE_4K <= |frames|
    ensures forall v: nat | v < start || start + size <= v ::
      Query(pt + AllocEntries(start / PAGE_SIZE_4K, frames, size / PAGE_SIZE_4K, flags), v) == Query(pt, v)
  {
    var entries := AllocEntries(start / PAGE_SIZE_4K, frames, size / PAGE_SIZE_4K, flags);
    forall v: nat | v < start || start + size <= v ensures Query(pt + entries, v) == Query(pt, v) {
      OutsidePages(start, size, v);
    }
  }

  /** A populated `map_alloc` that succeeds covers at least one page and maps its start to the first frame handed out. */
  lemma AllocStartsAtFirstFrame(m: Mappings, start: nat, size: nat, flags: set<MappingFlag>, frames: seq<nat>)
    requires MapAllocSpec(m, start, size, flags, true, frames).Ok?
    ensures 0 < size / PAGE_SIZE_4K <= |frames|
    ensures Query(MapAllocSpec(m, start, size, flags, true, frames).value.pt, start) == Ok(frames[0] * PAGE_SIZE_4K)
  {
    assert start + 0 * PAGE_SIZE_4K == start;
  }

  /** An address inside a mapped page translates to the same offset inside its frame. */
  lemma QueryWithinPage(pt: PageTable, base: nat, o: nat)
    requires IsAligned4K(base) && o < PAGE_SIZE_4K && Query(pt, base).Ok?
    ensures Query(pt, base + o) == Ok(Query(pt, base).value + o)
  {
    assert (base + o) / PAGE_SIZE_4K == base / PAGE_SIZE_4K;
    assert (base + o) % PAGE_SIZE_4K == o;
  }

  /** Byte `j` of a region whose k-th page maps to `frames[k]` lies at offset `j % 4K` of frame `j / 4K`. */
  lemma PagedByteAddress(pt: PageTable, start: nat, frames: seq<nat>, j: nat)
    requires IsAligned4K(start) && j < |frames| * PAGE_SIZE_4K
    requires forall k | 0 <= k < |frames| :: Query(pt, start + k * PAGE_SIZE_4K) == Ok(frames[k] * PAGE_SIZE_4K)
    ensures j / PAGE_SIZE_4K < |frames|
    ensures Query(pt, start + j) == Ok(frames[j / PAGE_SIZE_4K] * PAGE_SIZE_4K + j % PAGE_SIZE_4K)
  {
    var p, o := j / PAGE_SIZE_4K, j % PAGE_SIZE_4K;
    assert j == p * PAGE_SIZE_4K + o;
    assert Query(pt, start + p * PAGE_SIZE_4K) == Ok(frames[p] * PAGE_SIZE_4K);
    NthPage(start, p);
    QueryWithinPage(pt, start + p * PAGE_SIZE_4K, o);
  }

  /** Mapping an aligned area keeps every page-table entry inside some area. */
  lemma {:induction false} NewAreaCoversEntries(m: Mappings, r: Mappings, a: MemArea, entries: PageTable)
    requires Covered(m) && IsAligned4K(a.start) && IsAligned4K(a.size)
    requires r.areas == m.areas + [a] && r.pt == m.pt + entries
    requires forall vpn | vpn in entries :: a.start / PAGE_SIZE_4K <= vpn < a.start / PAGE_SIZE_4K + a.size / PAGE_SIZE_4K
    ensures Covered(r)
  {
    forall vpn | vpn in r.pt ensures exists i | 0 <= i < |r.areas| :: Contains(r.areas[i], vpn * PAGE_SIZE_4K) {
      if vpn in entries {
        assert Contains(r.areas[|m.areas|], vpn * PAGE_SIZE_4K);
      } else {
        var i :| 0 <= i < |m.areas| && Contains(m.areas[i], vpn * PAGE_SIZE_4K);
        assert r.areas[i] == m.areas[i];
      }
    }
  }

  lemma MapLinearKeepsCovered(m: Mappings, va: nat, pa: nat, size: nat, flags: set<MappingFlag>)
    requires Covered(m) && MapLinearSpec(m, va, pa, size, flags).Ok?
    ensures Covered(MapLinearSpec(m, va, pa, size, flags).value)
  {
    var entries := LinearEntries(va / PAGE_SIZE_4K, pa / PAGE_SIZE_4K, size / PAGE_SIZE_4K, flags);
    NewAreaCoversEntries(m, MapLinearSpec(m, va, pa, size, flags).value, MemArea(va, size, flags, Linear), entries);
  }

  lemma MapAllocKeepsCovered(m: Mappings, start: nat, size: nat, flags: set<MappingFlag>, populate: bool, frames: seq<nat>)
    requires Covered(m) && MapAllocSpec(m, start, size, flags, populate, frames).Ok?
    ensures Covered(MapAllocSpec(m, start, size, flags, populate, frames).value)
  {
    var pages := size / PAGE_SIZE_4K;
    var entries := if populate then AllocEntries(start / PAGE_SIZE_4K, frames, pages, flags) else map[];
    NewAreaCoversEntries(m, MapAllocSpec(m, start, size, flags, populate, frames).value,
      MemArea(start, size, flags, Alloc(populate)), entries);
  }

  /** A mapped, page-aligned address lies in some area, so any area starting there overlaps it. */
  lemma {:induction false} MappedAddressOverlaps(m: Mappings, va: nat, size: nat)
    requires Covered(m) && IsAligned4K(va) && Query(m.pt, va).Ok? && size > 0
    ensures OverlapsAny(m.areas, va, size)
  {
    var vpn := va / PAGE_SIZE_4K;
    assert vpn * PAGE_SIZE_4K == va;
    var i :| 0 <= i < |m.areas| && Contains(m.areas[i], vpn * PAGE_SIZE_4K);
    assert Overlaps(m.areas[i], va, size);
  }

  /** A fresh address space (`axmm::new_user_aspace()`), with nothing mapped in [base, end). */
  function EmptyMappings(base: nat, end: nat): (m: Mappings)
    ensures Covered(m) && forall va :: Query(m.pt, va).Err?
  {
    Mappings(base, end, [], map[])
  }

  /** `axmm::AddrSpace`: its mapped areas and page table change in place. */
  class AddrSpace {
    const base: nat
    const end: nat
    /** `page_table_root()`: physical address of the root page-table page. */
    const root: nat
    var areas: seq<MemArea>
    var pt: PageTable

    function View(): Mappings
      reads this
    {
      Mappings(base, end, areas, pt)
    }

    constructor (base: nat, end: nat, root: nat)
      ensures View() == EmptyMappings(base, end) && this.root == root
    {
      this.base, this.end, this.root := base, end, root;
      areas, pt := [], map[];
    }

    /** `page_table().query(va)`, without the flags and level. */
    function QueryVa(va: nat): Result<nat, PagingError>
      reads this
    {
      Query(pt, va)
    }

    method MapLinear(va: nat, pa: nat, size: nat, flags: set<MappingFlag>) returns (r: Result<(), AxError>)
      modifies this
      ensures var spec := MapLinearSpec(old(View()), va, pa, size, flags);
        (r.Ok? <==> spec.Ok?) && (r.Err? ==> r.error == spec.error)
        && View() == (if spec.Ok? then spec.value else old(View()))
    {
      var spec := MapLinearSpec(View(), va, pa, size, flags);
      if spec.Err? {
        return Err(spec.error);
      }
      areas, pt := spec.value.areas, spec.value.pt;
      return Ok(());
    }

    method MapAlloc(start: nat, size: nat, flags: set<MappingFlag>, populate: bool, frames: seq<nat>)
      returns (r: Result<(), AxError>)
      modifies this
      ensures var spec := MapAllocSpec(old(View()), start, size, flags, populate, frames);
        (r.Ok? <==> spec.Ok?) && (r.Err? ==> r.error == spec.error)
        && View() == (if spec.Ok? then spec.value else old(View()))
    {
      var spec := MapAllocSpec(View(), start, size, flags, populate, frames);
      if spec.Err? {
        return Err(spec.error);
      }
      areas, pt := spec.value.areas, spec.value.pt;
      return Ok(());
    }
  }
}
