/** The virtual memory manager, kernel/vmm.c: the kernel's page directory and pages mapped on request. */
module Vmm {
  import opened Words
  import opened Pmm
  import opened Paging
  import opened PageRanges
  import HeapBlocks
  import HeapMemory

  const KERNEL_BASE: uint32 := 0xC000_0000
  const KERNEL_PAGE := 0xC_0000
  const KERNEL_DIR := 768

  const HEAP_BYTES: uint32 := HeapBlocks.HEAP_MAX_SIZE + HeapBlocks.HEADER + HeapBlocks.TRAILER

  const ERR_PHYS_EXHAUSTED: uint32 := 0xFFFF_FFFF
  const ERR_INVALID_SIZE: uint32 := 0xFFFF_FFFD

  function PhyToVir(addr: uint32): uint32 {
    Add(addr, KERNEL_BASE)
  }

  function VirToPhy(addr: uint32): uint32 {
    Sub(addr, KERNEL_BASE)
  }

  /** The two conversions undo each other, and are 3 GB apart. */
  lemma Conversions(addr: uint32)
    ensures VirToPhy(PhyToVir(addr)) == addr && PhyToVir(VirToPhy(addr)) == addr
    ensures PhyToVir(addr) == (addr + 0xC000_0000) % 0x1_0000_0000
  {
  }

  // ------------------------------------------------------------------
  // The kernel's own mapping
  // ------------------------------------------------------------------

  /** Directory entry `i` of the kernel half: a 4 MB page, kernel-only. */
  function KernelEntry(e: Entry, i: nat): Entry
    requires KERNEL_DIR <= i < ENTRIES
  {
    e.(present := true, writable := true, user := false, large := true, address := (i - KERNEL_DIR) * 1024)
  }

  function KernelTo(t: Table, n: nat): Table
    requires n <= ENTRIES
  {
    seq(ENTRIES, i requires 0 <= i < ENTRIES => if KERNEL_DIR <= i < n then KernelEntry(t[i], i) else t[i])
  }

  function MapKernel(m: Memory, pd: Frame, pse: bool): Memory {
    if pse then m[pd := KernelTo(At(m, pd), ENTRIES)] else m
  }

  ghost predicate KernelMapped(m: Memory, pd: Frame) {
    forall i: nat :: KERNEL_DIR <= i < ENTRIES ==> At(m, pd)[i] == KernelEntry(At(m, pd)[i], i)
  }

  /** Which bits `vmm_map_kernel` writes, for every entry of every frame. */
  lemma MapKernelEntries(m: Memory, pd: Frame, pse: bool, f: int, i: nat)
    requires i < ENTRIES
    ensures var e, e' := At(m, f)[i], At(MapKernel(m, pd, pse), f)[i];
            && e'.flags == e.flags && e'.available == e.available
            && (if pse && f == pd && i >= 768 then
                  e'.present && e'.writable && !e'.user && e'.large && e'.address == (i - 768) * 1024
                else e' == e)
  {
  }

  /** Every address of the kernel half resolves to its offset from the kernel base. */
  lemma DirectMap(m: Memory, pd: Frame, v: uint32)
    requires KernelMapped(m, pd) && KERNEL_BASE <= v
    ensures Translate(m, pd, v) == Some(VirToPhy(v))
    ensures Walk(m, pd, PageOf(v)) == Some(Mapping(PageOf(v) - KERNEL_PAGE, true, false))
  {
    var page: Frame := PageOf(v);
    var i := Dir(page);
    assert KERNEL_DIR <= i < ENTRIES;
    assert At(m, pd)[i] == KernelEntry(At(m, pd)[i], i);
    assert (i - KERNEL_DIR) * 1024 % 1024 == 0;
    assert (i - KERNEL_DIR) * 1024 + Idx(page) == page - KERNEL_PAGE;
  }

  /** `vmm_map_kernel` sets up the direct map when the CPU has 4 MB pages, and nothing at all when it has not. */
  lemma MapKernelMaps(m: Memory, pd: Frame, pse: bool)
    ensures pse ==> KernelMapped(MapKernel(m, pd, pse), pd)
    ensures !pse ==> MapKernel(m, pd, pse) == m
    ensures forall i: nat :: i < KERNEL_DIR ==> At(MapKernel(m, pd, pse), pd)[i] == At(m, pd)[i]
    ensures forall f :: f != pd ==> At(MapKernel(m, pd, pse), f) == At(m, f)
  {
  }

  // ------------------------------------------------------------------
  // vmm_alloc_pages
  // ------------------------------------------------------------------

  /** Take a frame for the page, then map it. */
  function AllocPage(s: Vm, pd: Frame, page: Frame): (r: Vm)
    requires s.frames.max <= BITMAP_FRAMES
    ensures r.frames.max == s.frames.max && r.frames.base == s.frames.base
  {
    MapPage(s.(frames := Alloc(s.frames)), pd, page, Allocated(s.frames))
  }

  /** State after `n` turns of the loop of `vmm_alloc_pages`. */
  function AllocPages(s: Vm, pd: Frame, page: Frame, n: nat): (r: Vm)
    requires s.frames.max <= BITMAP_FRAMES
    ensures r.frames.max == s.frames.max && r.frames.base == s.frames.base
  {
    if n == 0 then s else AllocPage(AllocPages(s, pd, page, n - 1), pd, Plus(page, n - 1))
  }

  /** The PMM hands out the null address, which the code takes for exhaustion. */
  predicate NullNext(f: Frames)
    requires f.max <= BITMAP_FRAMES
  {
    Allocated(f) == 0
  }

  function PageCount(size: uint32): nat {
    Align4K(size) / 4096
  }

  /** The page count covers the request unless rounding up wraps, and then the call maps nothing yet reports success. */
  lemma PageCountCovers(size: uint32)
    ensures PageCount(size) * 4096 >= size <==> size <= 0xFFFF_F000
    ensures size <= 0xFFFF_F000 ==> PageCount(size) == (size + 4095) / 4096
    ensures size > 0xFFFF_F000 ==> PageCount(size) == 0
  {
    Align4KRoundsUp(size);
  }

  // ------------------------------------------------------------------
  // What holds between calls
  // ------------------------------------------------------------------

  /** No large page in the user half. */
  ghost predicate LowSmall(m: Memory, pd: Frame) {
    forall i: nat :: i < KERNEL_DIR ==> !At(m, pd)[i].large
  }

  /** A frame backing user data: held, and neither the directory nor one of its tables. */
  ghost predicate IsData(s: Vm, pd: Frame, f: Frame) {
    Held(s.frames, f) && f != pd && !IsTable(s.mem, pd, f)
  }

  /** The user pages resolve to pairwise distinct data frames. */
  ghost predicate DataDistinct(s: Vm, pd: Frame) {
    && (forall q: Frame :: q < KERNEL_PAGE && Walk(s.mem, pd, q).Some? ==> IsData(s, pd, Walk(s.mem, pd, q).value.page))
    && (forall q: Frame, p: Frame :: q < p < KERNEL_PAGE && Walk(s.mem, pd, q).Some? && Walk(s.mem, pd, p).Some? ==>
          Walk(s.mem, pd, q).value.page != Walk(s.mem, pd, p).value.page)
  }

  ghost predicate Sound(s: Vm, pd: Frame) {
    && WellFormed(s, pd)
    && 0 < s.frames.base
    && LowSmall(s.mem, pd)
    && DataDistinct(s, pd)
  }

  /** Taking a frame from the PMM leaves the directory sound, and the frame is none of those in use. */
  lemma TakeFrame(s: Vm, pd: Frame)
    requires Sound(s, pd) && Available(s.frames)
    ensures var r := s.(frames := Alloc(s.frames));
            var d := NewTable(s);
            && Sound(r, pd)
            && IsData(r, pd, d)
            && !NullNext(s.frames)
            && (forall q: Frame :: q < KERNEL_PAGE && Walk(s.mem, pd, q).Some? ==> Walk(s.mem, pd, q).value.page != d)
  {
    AllocTakesLowest(s.frames);
    NewTableIsFresh(s);
    var r := s.(frames := Alloc(s.frames));
    assert forall f :: Held(s.frames, f) ==> Held(r.frames, f);
    assert WellFormed(r, pd);
    forall q: Frame | q < KERNEL_PAGE && Walk(s.mem, pd, q).Some?
      ensures IsData(r, pd, Walk(s.mem, pd, q).value.page)
    {
      assert IsData(s, pd, Walk(s.mem, pd, q).value.page);
    }
  }

  /** A data frame stays a data frame when another page is mapped. */
  lemma DataStays(s: Vm, pd: Frame, page: Frame, target: Frame, f: Frame)
    requires Sound(s, pd) && page < KERNEL_PAGE
    requires At(s.mem, pd)[Dir(page)].present || Available(s.frames)
    requires IsData(s, pd, f)
    ensures IsData(MapPage(s, pd, page, target), pd, f)
  {
    var r := MapPage(s, pd, page, target);
    if !At(s.mem, pd)[Dir(page)].present {
      NewTableIsFresh(s);
    }
    forall i: nat | i < ENTRIES && HasTable(r.mem, pd, i)
      ensures At(r.mem, pd)[i].address != f
    {
      MapPageDirectory(s, pd, page, target, i);
      if HasTable(s.mem, pd, i) {
        assert IsTable(s.mem, pd, At(s.mem, pd)[i].address);
      }
    }
  }

  lemma MapDataSound(s: Vm, pd: Frame, page: Frame, d: Frame)
    requires Sound(s, pd) && page < KERNEL_PAGE
    requires At(s.mem, pd)[Dir(page)].present || Available(s.frames)
    requires IsData(s, pd, d)
    requires forall q: Frame :: q < KERNEL_PAGE && Walk(s.mem, pd, q).Some? ==> Walk(s.mem, pd, q).value.page != d
    ensures Sound(MapPage(s, pd, page, d), pd)
  {
    var r := MapPage(s, pd, page, d);
    MapPageStep(s, pd, page, d);
    forall q: Frame | q < KERNEL_PAGE
      ensures Walk(r.mem, pd, q) ==
              if q == page then Some(Mapping(d, At(s.mem, pd)[Dir(page)].writable, false)) else Walk(s.mem, pd, q)
      ensures Walk(r.mem, pd, q).Some? ==> IsData(r, pd, Walk(r.mem, pd, q).value.page)
    {
      MapPageWalk(s, pd, page, d, q);
      if Walk(r.mem, pd, q).Some? {
        DataStays(s, pd, page, d, Walk(r.mem, pd, q).value.page);
      }
    }
  }

  // ------------------------------------------------------------------
  // Every run of vmm_alloc_pages
  // ------------------------------------------------------------------

  /** A request below the kernel half, with a frame for every page and for every table still missing. */
  ghost predicate CanAlloc(s: Vm, pd: Frame, page: Frame, n: nat) {
    && Sound(s, pd)
    && page + n <= KERNEL_PAGE
    && n + |Missing(s.mem, pd, page, n)| <= |FreeSet(s.frames)|
  }

  /** What one call changes: `n` data frames and one table for each directory entry that was missing. */
  ghost predicate AllocAfter(s: Vm, r: Vm, pd: Frame, page: Frame, n: nat) {
    && Sound(r, pd)
    && Extends(s.mem, r.mem, pd)
    && Present(r.mem, pd) == Present(s.mem, pd) + Dirs(page, n)
    && r.frames.count == s.frames.count + n + |Missing(s.mem, pd, page, n)|
    && |FreeSet(r.frames)| == |FreeSet(s.frames)| - n - |Missing(s.mem, pd, page, n)|
    && s.frames.used <= r.frames.used
  }

  /** What one turn of the loop changes. */
  ghost predicate PageAfter(s: Vm, r: Vm, pd: Frame, page: Frame) {
    var cost := if Dir(page) in Present(s.mem, pd) then 0 else 1;
    && Sound(r, pd)
    && Extends(s.mem, r.mem, pd)
    && Present(r.mem, pd) == Present(s.mem, pd) + {Dir(page)}
    && r.frames.count == s.frames.count + 1 + cost
    && |FreeSet(r.frames)| == |FreeSet(s.frames)| - 1 - cost
    && s.frames.used <= r.frames.used
  }

  lemma AllocPageStep(s: Vm, pd: Frame, page: Frame)
    requires Sound(s, pd) && page < KERNEL_PAGE
    requires |FreeSet(s.frames)| >= 1 + (if Dir(page) in Present(s.mem, pd) then 0 else 1)
    ensures !NullNext(s.frames)
    ensures PageAfter(s, AllocPage(s, pd, page), pd, page)
  {
    FreeSetAvailable(s.frames);
    var t := s.(frames := Alloc(s.frames));
    AllocTakesLowest(s.frames);
    AllocShrinksFreeSet(s.frames);
    TakeFrame(s, pd);
    FreeSetAvailable(t.frames);
    assert Present(t.mem, pd) == Present(s.mem, pd);
    assert At(t.mem, pd)[Dir(page)].present || Available(t.frames);
    MapPageStep(t, pd, page, NewTable(s));
    MapDataSound(t, pd, page, NewTable(s));
  }

  lemma AllocNone(s: Vm, pd: Frame, page: Frame)
    requires Sound(s, pd)
    ensures AllocAfter(s, s, pd, page, 0)
  {
    assert Missing(s.mem, pd, page, 0) == {};
  }

  lemma CanAllocFewer(s: Vm, pd: Frame, page: Frame, n: nat)
    requires 0 < n && CanAlloc(s, pd, page, n)
    ensures CanAlloc(s, pd, page, n - 1)
  {
    MissingStep(s.mem, pd, page, n);
  }

  lemma PlusBelow(page: Frame, k: nat)
    requires page + k < KERNEL_PAGE
    ensures Plus(page, k) == page + k
  {
  }

  lemma RoomLeft(s: Vm, t: Vm, pd: Frame, page: Frame, n: nat, p: Frame)
    requires 0 < n && n + |Missing(s.mem, pd, page, n)| <= |FreeSet(s.frames)| && p == Plus(page, n - 1)
    requires Present(t.mem, pd) == Present(s.mem, pd) + Dirs(page, n - 1)
    requires |FreeSet(t.frames)| == |FreeSet(s.frames)| - (n - 1) - |Missing(s.mem, pd, page, n - 1)|
    ensures |FreeSet(t.frames)| >= 1 + (if Dir(p) in Present(t.mem, pd) then 0 else 1)
  {
    MissingStep(s.mem, pd, page, n);
  }

  /** After the first n - 1 turns there is still a frame for the last page, and for its table if that is missing. */
  lemma RoomForNext(s: Vm, t: Vm, pd: Frame, page: Frame, n: nat)
    requires 0 < n && page + n <= KERNEL_PAGE
    requires n + |Missing(s.mem, pd, page, n)| <= |FreeSet(s.frames)|
    requires Present(t.mem, pd) == Present(s.mem, pd) + Dirs(page, n - 1)
    requires |FreeSet(t.frames)| == |FreeSet(s.frames)| - (n - 1) - |Missing(s.mem, pd, page, n - 1)|
    ensures Plus(page, n - 1) == page + n - 1 < KERNEL_PAGE
    ensures |FreeSet(t.frames)| >= 1 + (if Dir(Plus(page, n - 1)) in Present(t.mem, pd) then 0 else 1)
  {
    PlusBelow(page, n - 1);
    RoomLeft(s, t, pd, page, n, page + n - 1);
  }

  lemma AllocCompose(s: Vm, t: Vm, r: Vm, pd: Frame, page: Frame, n: nat)
    requires 0 < n && AllocAfter(s, t, pd, page, n - 1) && PageAfter(t, r, pd, Plus(page, n - 1))
    ensures AllocAfter(s, r, pd, page, n)
  {
    MissingStep(s.mem, pd, page, n);
    ExtendsTransitive(s.mem, t.mem, r.mem, pd);
    assert Present(r.mem, pd) == Present(s.mem, pd) + Dirs(page, n);
  }

  lemma AllocNext(s: Vm, t: Vm, pd: Frame, page: Frame, n: nat)
    requires 0 < n && CanAlloc(s, pd, page, n) && AllocAfter(s, t, pd, page, n - 1)
    ensures !NullNext(t.frames)
    ensures AllocAfter(s, AllocPage(t, pd, Plus(page, n - 1)), pd, page, n)
  {
    RoomForNext(s, t, pd, page, n);
    AllocPageStep(t, pd, Plus(page, n - 1));
    AllocCompose(s, t, AllocPage(t, pd, Plus(page, n - 1)), pd, page, n);
  }

  /** The states the loop of `vmm_alloc_pages` has gone through, one turn after the other. */
  ghost predicate IsTrace(s: Vm, trace: seq<Vm>, pd: Frame, page: Frame) {
    && 0 < |trace| && trace[0] == s
    && (forall k: nat :: k < |trace| ==> trace[k].frames.max <= BITMAP_FRAMES)
    && (forall k: nat :: k < |trace| - 1 ==> trace[k + 1] == AllocPage(trace[k], pd, Plus(page, k)))
  }

  lemma AllocPagesNext(s: Vm, t: Vm, pd: Frame, page: Frame, n: nat)
    requires s.frames.max <= BITMAP_FRAMES && t == AllocPages(s, pd, page, n)
    ensures AllocPages(s, pd, page, n + 1) == AllocPage(t, pd, Plus(page, n))
  {
  }

  lemma TurnOf(s: Vm, trace: seq<Vm>, pd: Frame, page: Frame, k: nat)
    requires s.frames.max <= BITMAP_FRAMES && k < |trace| - 1
    requires trace[k] == AllocPages(s, pd, page, k) && trace[k + 1] == AllocPages(s, pd, page, k + 1)
    ensures trace[k].frames.max <= BITMAP_FRAMES && trace[k + 1] == AllocPage(trace[k], pd, Plus(page, k))
  {
    AllocPagesNext(s, trace[k], pd, page, k);
  }

  lemma NoTurn(s: Vm, pd: Frame, page: Frame)
    requires s.frames.max <= BITMAP_FRAMES
    ensures AllocPages(s, pd, page, 0) == s
  {
  }

  lemma StatesAreTrace(s: Vm, trace: seq<Vm>, pd: Frame, page: Frame)
    requires s.frames.max <= BITMAP_FRAMES && 0 < |trace| && trace[0] == s
    requires forall k: nat :: k < |trace| ==> trace[k] == AllocPages(s, pd, page, k)
    ensures IsTrace(s, trace, pd, page)
  {
    forall k: nat | k < |trace| - 1
      ensures trace[k].frames.max <= BITMAP_FRAMES && trace[k + 1] == AllocPage(trace[k], pd, Plus(page, k))
    {
      TurnOf(s, trace, pd, page, k);
    }
    assert forall k: nat :: k < |trace| ==> trace[k].frames.max <= BITMAP_FRAMES;
  }

  lemma TraceOf(s: Vm, pd: Frame, page: Frame, n: nat) returns (trace: seq<Vm>)
    requires s.frames.max <= BITMAP_FRAMES
    ensures IsTrace(s, trace, pd, page) && |trace| == n + 1 && trace[n] == AllocPages(s, pd, page, n)
  {
    trace := seq(n + 1, k requires 0 <= k => AllocPages(s, pd, page, k));
    NoTurn(s, pd, page);
    StatesAreTrace(s, trace, pd, page);
  }

  /**
   * Frame accounting: a call in the domain succeeds, costs one frame for each page and one for each directory
   * entry that became present, and keeps user pages on pairwise distinct frames apart from every table.
   */
  lemma AllocPagesSound(s: Vm, pd: Frame, page: Frame, n: nat)
    requires CanAlloc(s, pd, page, n)
    ensures AllocAfter(s, AllocPages(s, pd, page, n), pd, page, n)
  {
    var trace := TraceOf(s, pd, page, n);
    SoundAlong(s, trace, pd, page, n);
  }

  lemma {:induction false} SoundAlong(s: Vm, trace: seq<Vm>, pd: Frame, page: Frame, n: nat)
    requires IsTrace(s, trace, pd, page) && n < |trace| && CanAlloc(s, pd, page, n)
    ensures AllocAfter(s, trace[n], pd, page, n)
    decreases n
  {
    if n == 0 {
      AllocNone(s, pd, page);
    } else {
      CanAllocFewer(s, pd, page, n);
      SoundAlong(s, trace, pd, page, n - 1);
      SoundTurn(s, trace, pd, page, n - 1, n);
    }
  }

  lemma SoundTurn(s: Vm, trace: seq<Vm>, pd: Frame, page: Frame, k: nat, n: nat)
    requires IsTrace(s, trace, pd, page) && n == k + 1 < |trace| && CanAlloc(s, pd, page, n)
    requires AllocAfter(s, trace[k], pd, page, k)
    ensures AllocAfter(s, trace[n], pd, page, n)
  {
    assert trace[k + 1] == AllocPage(trace[k], pd, Plus(page, k));
    AllocNext(s, trace[k], pd, page, n);
  }

  lemma NotNullYet(s: Vm, t: Vm, pd: Frame, page: Frame, k: nat)
    requires CanAlloc(s, pd, page, k + 1) && AllocAfter(s, t, pd, page, k)
    ensures !NullNext(t.frames)
  {
    AllocNext(s, t, pd, page, k + 1);
  }

  lemma {:induction false} CanAllocPrefix(s: Vm, pd: Frame, page: Frame, n: nat, k: nat)
    requires k <= n && CanAlloc(s, pd, page, n)
    ensures CanAlloc(s, pd, page, k)
    decreases n
  {
    if k < n {
      CanAllocFewer(s, pd, page, n);
      CanAllocPrefix(s, pd, page, n - 1, k);
    }
  }

  lemma NoNullAt(s: Vm, pd: Frame, page: Frame, k: nat)
    requires CanAlloc(s, pd, page, k + 1)
    ensures !NullNext(AllocPages(s, pd, page, k).frames)
  {
    CanAllocFewer(s, pd, page, k + 1);
    AllocPagesSound(s, pd, page, k);
    NotNullYet(s, AllocPages(s, pd, page, k), pd, page, k);
  }

  /** No turn of such a call meets the null frame, so `vmm_alloc_pages` returns 0. */
  lemma NoNullOnTheWay(s: Vm, pd: Frame, page: Frame, n: nat, k: nat)
    requires CanAlloc(s, pd, page, n) && k < n
    ensures !NullNext(AllocPages(s, pd, page, k).frames)
  {
    CanAllocPrefix(s, pd, page, n, k + 1);
    NoNullAt(s, pd, page, k);
  }

  // ------------------------------------------------------------------
  // What vmm_alloc_pages maps
  // ------------------------------------------------------------------

  /** One turn maps the page to the frame it takes, kernel-only, and changes no other translation. */
  lemma AllocPageMaps(s: Vm, pd: Frame, page: Frame, q: Frame)
    requires Sound(s, pd) && page < KERNEL_PAGE
    requires |FreeSet(s.frames)| >= 1 + (if Dir(page) in Present(s.mem, pd) then 0 else 1)
    ensures Walk(AllocPage(s, pd, page).mem, pd, q) ==
            if q == page then Some(Mapping(Allocated(s.frames), At(s.mem, pd)[Dir(page)].writable, false))
            else Walk(s.mem, pd, q)
    ensures !Held(s.frames, Allocated(s.frames)) && Held(AllocPage(s, pd, page).frames, Allocated(s.frames))
  {
    FreeSetAvailable(s.frames);
    var t := s.(frames := Alloc(s.frames));
    AllocShrinksFreeSet(s.frames);
    TakeFrame(s, pd);
    NewTableIsFresh(s);
    FreeSetAvailable(t.frames);
    MapPageWalk(t, pd, page, Allocated(s.frames), q);
    MapPageStep(t, pd, page, Allocated(s.frames));
  }

  /** Bit by bit, in any state, with memory exhausted too: one turn is one turn of `paging_map` to the frame taken. */
  lemma AllocPageEntries(s: Vm, pd: Frame, page: Frame, f: int, i: nat)
    requires s.frames.max <= BITMAP_FRAMES && i < ENTRIES
    requires At(s.mem, pd)[Dir(page)].present || NewTable(s.(frames := Alloc(s.frames))) != pd
    ensures var t := s.(frames := Alloc(s.frames)); var missing := !At(s.mem, pd)[Dir(page)].present;
            && AllocPage(s, pd, page).frames == (if missing then Alloc(Alloc(s.frames)) else Alloc(s.frames))
            && EntryAfter(At(s.mem, f)[i], At(AllocPage(s, pd, page).mem, f)[i], f == TableOf(t, pd, page),
               f == pd && i == Dir(page), i == Idx(page), missing, TableOf(t, pd, page), Allocated(s.frames))
  {
    MapPageEntries(s.(frames := Alloc(s.frames)), pd, page, Allocated(s.frames), f, i);
  }

  /** Requests one after the other for neighbouring pages are served like one for all of them, in any state. */
  lemma {:induction false} AllocPagesSplit(s: Vm, pd: Frame, page: Frame, n: nat, k: nat)
    requires s.frames.max <= BITMAP_FRAMES
    ensures AllocPages(s, pd, page, n + k) == AllocPages(AllocPages(s, pd, page, n), pd, Plus(page, n), k)
  {
    hide *;
    var t := AllocPages(s, pd, page, n);
    if k == 0 {
      NoTurn(t, pd, Plus(page, n));
    } else {
      var j: nat := k - 1;
      AllocPagesSplit(s, pd, page, n, j);
      OneMorePage(s, pd, page, n + j, n + k);
      OneMorePage(t, pd, Plus(page, n), j, k);
      PlusPlus(page, n, j);
    }
  }

  lemma OneMorePage(s: Vm, pd: Frame, page: Frame, j: nat, k: nat)
    requires s.frames.max <= BITMAP_FRAMES && k == j + 1
    ensures AllocPages(s, pd, page, k) == AllocPage(AllocPages(s, pd, page, j), pd, Plus(page, j))
  {
    hide AllocPage, Plus;
  }

  /** Page `q` resolves to a frame of its own that was free before, with the rights of its directory entry. */
  ghost predicate Given(s: Vm, r: Vm, pd: Frame, q: Frame) {
    var w := Walk(r.mem, pd, q);
    && w.Some? && !Held(s.frames, w.value.page) && Held(r.frames, w.value.page)
    && w.value.writable == At(s.mem, pd)[Dir(q)].writable && !w.value.user
  }

  /** The pages asked for are mapped to new frames, and every other page of the address space resolves as before. */
  ghost predicate MapsAsked(s: Vm, r: Vm, pd: Frame, page: Frame, n: nat, q: Frame) {
    if page <= q < page + n then Given(s, r, pd, q) else Walk(r.mem, pd, q) == Walk(s.mem, pd, q)
  }

  lemma AskedNext(s: Vm, t: Vm, pd: Frame, page: Frame, n: nat, q: Frame, r: Vm, p: Frame)
    requires 0 < n && CanAlloc(s, pd, page, n) && AllocAfter(s, t, pd, page, n - 1)
    requires s.frames.base == t.frames.base == r.frames.base && p == Plus(page, n - 1) && r == AllocPage(t, pd, p)
    requires MapsAsked(s, t, pd, page, n - 1, q)
    ensures MapsAsked(s, r, pd, page, n, q)
  {
    RoomForNext(s, t, pd, page, n);
    AllocPageMaps(t, pd, p, q);
    AllocPageStep(t, pd, p);
    AskedTurn(s, t, pd, page, n, q, r, p, Allocated(t.frames));
  }

  lemma AskedTurn(s: Vm, t: Vm, pd: Frame, page: Frame, n: nat, q: Frame, r: Vm, p: Frame, d: Frame)
    requires 0 < n && p == page + n - 1 && s.frames.base == t.frames.base == r.frames.base
    requires s.frames.used <= t.frames.used <= r.frames.used && Extends(s.mem, t.mem, pd)
    requires Walk(r.mem, pd, q) ==
             if q == p then Some(Mapping(d, At(t.mem, pd)[Dir(p)].writable, false)) else Walk(t.mem, pd, q)
    requires !Held(t.frames, d) && Held(r.frames, d) && MapsAsked(s, t, pd, page, n - 1, q)
    ensures MapsAsked(s, r, pd, page, n, q)
  {
  }

  lemma AllocPagesMap(s: Vm, pd: Frame, page: Frame, n: nat, q: Frame)
    requires CanAlloc(s, pd, page, n)
    ensures MapsAsked(s, AllocPages(s, pd, page, n), pd, page, n, q)
  {
    var trace := TraceOf(s, pd, page, n);
    AskedAlong(s, trace, pd, page, n, q);
  }

  lemma {:induction false} AskedAlong(s: Vm, trace: seq<Vm>, pd: Frame, page: Frame, n: nat, q: Frame)
    requires IsTrace(s, trace, pd, page) && n < |trace| && CanAlloc(s, pd, page, n)
    ensures trace[n].frames.base == s.frames.base && MapsAsked(s, trace[n], pd, page, n, q)
    decreases n
  {
    if n > 0 {
      CanAllocFewer(s, pd, page, n);
      AskedAlong(s, trace, pd, page, n - 1, q);
      SoundAlong(s, trace, pd, page, n - 1);
      assert trace[n - 1 + 1] == AllocPage(trace[n - 1], pd, Plus(page, n - 1));
      AskedNext(s, trace[n - 1], pd, page, n, q, trace[n], Plus(page, n - 1));
    }
  }

  lemma KeepsAlloc(s: Vm, t: Vm, pd: Frame, page: Frame, n: nat, r: Vm)
    requires 0 < n && CanAlloc(s, pd, page, n) && AllocAfter(s, t, pd, page, n - 1) && Keeps(s, t, pd)
    requires r == AllocPage(t, pd, Plus(page, n - 1))
    ensures Keeps(s, r, pd)
  {
    RoomForNext(s, t, pd, page, n);
    FreeSetAvailable(t.frames);
    var u := t.(frames := Alloc(t.frames));
    AllocShrinksFreeSet(t.frames);
    TakeFrame(t, pd);
    NewTableIsFresh(t);
    FreeSetAvailable(u.frames);
    AllocTakesLowest(t.frames);
    MapPageKeeps(s, u, r, pd, Plus(page, n - 1), Allocated(t.frames));
  }

  /** The contents of user pages, and every bit that `paging_map` does not write, stay as they were. */
  lemma AllocPagesKeep(s: Vm, pd: Frame, page: Frame, n: nat)
    requires CanAlloc(s, pd, page, n)
    ensures Keeps(s, AllocPages(s, pd, page, n), pd)
  {
    var trace := TraceOf(s, pd, page, n);
    KeepsTrace(s, trace, pd, page, n);
  }

  lemma {:induction false} KeepsTrace(s: Vm, trace: seq<Vm>, pd: Frame, page: Frame, n: nat)
    requires IsTrace(s, trace, pd, page) && n < |trace| && CanAlloc(s, pd, page, n)
    ensures Keeps(s, trace[n], pd)
    decreases n
  {
    if n > 0 {
      CanAllocFewer(s, pd, page, n);
      KeepsTrace(s, trace, pd, page, n - 1);
      SoundAlong(s, trace, pd, page, n - 1);
      assert trace[n - 1 + 1] == AllocPage(trace[n - 1], pd, Plus(page, n - 1));
      KeepsAlloc(s, trace[n - 1], pd, page, n, trace[n]);
    }
  }

  datatype Request = Request(page: Frame, size: uint32)

  function Serve(s: Vm, pd: Frame, requests: seq<Request>): (r: Vm)
    requires s.frames.max <= BITMAP_FRAMES
    decreases requests
  {
    if requests == [] then s
    else
      Serve(AllocPages(s, pd, requests[0].page, PageCount(requests[0].size)), pd, requests[1..])
  }

  ghost predicate AllServed(s: Vm, pd: Frame, requests: seq<Request>)
    requires s.frames.max <= BITMAP_FRAMES
    decreases requests
  {
    requests == [] || (
      var n := PageCount(requests[0].size);
      && CanAlloc(s, pd, requests[0].page, n)
      && AllServed(AllocPages(s, pd, requests[0].page, n), pd, requests[1..]))
  }

  /**
   * Over every run of requests the user pages stay on pairwise distinct data frames, no two directory
   * entries share a table, and the kernel's direct map is the one the run started with.
   */
  lemma {:induction false} RunSound(s: Vm, pd: Frame, requests: seq<Request>)
    requires s.frames.max <= BITMAP_FRAMES
    requires Sound(s, pd) && KernelMapped(s.mem, pd) && AllServed(s, pd, requests)
    ensures Sound(Serve(s, pd, requests), pd)
    ensures forall v: uint32 :: KERNEL_BASE <= v ==> Translate(Serve(s, pd, requests).mem, pd, v) == Some(VirToPhy(v))
    decreases requests
  {
    if requests == [] {
      forall v: uint32 | KERNEL_BASE <= v
        ensures Translate(s.mem, pd, v) == Some(VirToPhy(v))
      {
        DirectMap(s.mem, pd, v);
      }
    } else {
      var n := PageCount(requests[0].size);
      AllocPagesSound(s, pd, requests[0].page, n);
      KernelMapKept(s, AllocPages(s, pd, requests[0].page, n), pd, requests[0].page, n);
      RunSound(AllocPages(s, pd, requests[0].page, n), pd, requests[1..]);
    }
  }

  /** Some request of the run asks for page `q`. */
  predicate Asked(requests: seq<Request>, q: Frame) {
    exists i :: 0 <= i < |requests| && requests[i].page <= q < requests[i].page + PageCount(requests[i].size)
  }

  lemma AskedFirst(requests: seq<Request>, q: Frame)
    requires requests != []
    ensures Asked(requests, q) <==>
            requests[0].page <= q < requests[0].page + PageCount(requests[0].size) || Asked(requests[1..], q)
  {
    if Asked(requests[1..], q) {
      var i :| 0 <= i < |requests[1..]| &&
        requests[1..][i].page <= q < requests[1..][i].page + PageCount(requests[1..][i].size);
      assert requests[i + 1] == requests[1..][i];
    }
    if i :| 0 < i < |requests| && requests[i].page <= q < requests[i].page + PageCount(requests[i].size) {
      assert requests[1..][i - 1] == requests[i];
    }
  }

  /** What grows over a run, and what stays. */
  ghost predicate Grows(s: Vm, r: Vm, pd: Frame) {
    r.frames.base == s.frames.base && s.frames.used <= r.frames.used && Extends(s.mem, r.mem, pd)
  }

  lemma {:induction false} ServeGrows(s: Vm, pd: Frame, requests: seq<Request>)
    requires s.frames.max <= BITMAP_FRAMES && AllServed(s, pd, requests)
    ensures Grows(s, Serve(s, pd, requests), pd)
    decreases requests
  {
    if requests != [] {
      var t := AllocPages(s, pd, requests[0].page, PageCount(requests[0].size));
      AllocPagesSound(s, pd, requests[0].page, PageCount(requests[0].size));
      ServeGrows(t, pd, requests[1..]);
      ExtendsTransitive(s.mem, t.mem, Serve(t, pd, requests[1..]).mem, pd);
    }
  }

  lemma KeepsOnward(s: Vm, t: Vm, r: Vm, pd: Frame)
    requires s.frames.base == t.frames.base && s.frames.used <= t.frames.used && Keeps(s, t, pd) && Keeps(t, r, pd)
    ensures KeepsData(s, r, pd)
  {
    forall f: Frame | Held(s.frames, f) && f != pd && !IsTable(s.mem, pd, f)
      ensures At(r.mem, f) == At(s.mem, f)
    {
      DataIsNoTable(s, t, pd, f);
    }
  }

  lemma KeepsTwice(s: Vm, t: Vm, r: Vm, pd: Frame)
    requires s.frames.base == t.frames.base && s.frames.used <= t.frames.used && Keeps(s, t, pd) && Keeps(t, r, pd)
    ensures Keeps(s, r, pd)
  {
    KeepsOnward(s, t, r, pd);
    forall f: int, i: nat | i < ENTRIES
      ensures SameRest(At(s.mem, f)[i], At(r.mem, f)[i])
    {
      assert SameRest(At(s.mem, f)[i], At(t.mem, f)[i]);
    }
    forall i: nat | i < ENTRIES && HasTable(r.mem, pd, i)
      ensures || (HasTable(s.mem, pd, i) && At(s.mem, pd)[i].address == At(r.mem, pd)[i].address)
              || !Held(s.frames, At(r.mem, pd)[i].address)
    {
      assert HasTable(t.mem, pd, i) || !Held(t.frames, At(r.mem, pd)[i].address);
    }
  }

  /** Over every run the contents of user pages stay as they were. */
  lemma {:induction false} RunKeeps(s: Vm, pd: Frame, requests: seq<Request>)
    requires s.frames.max <= BITMAP_FRAMES && AllServed(s, pd, requests)
    ensures Keeps(s, Serve(s, pd, requests), pd)
    decreases requests
  {
    if requests != [] {
      var t := AllocPages(s, pd, requests[0].page, PageCount(requests[0].size));
      AllocPagesSound(s, pd, requests[0].page, PageCount(requests[0].size));
      AllocPagesKeep(s, pd, requests[0].page, PageCount(requests[0].size));
      RunKeeps(t, pd, requests[1..]);
      KeepsTwice(s, t, Serve(t, pd, requests[1..]), pd);
    }
  }

  /** What has been given stays given while other pages are asked for, or is given anew. */
  lemma GivenOnward(s: Vm, t: Vm, r: Vm, pd: Frame, page: Frame, n: nat, q: Frame, later: bool)
    requires AllocAfter(s, t, pd, page, n) && t.frames.base == s.frames.base && Grows(t, r, pd)
    requires MapsAsked(s, t, pd, page, n, q)
    requires if later then Given(t, r, pd, q) else Walk(r.mem, pd, q) == Walk(t.mem, pd, q)
    ensures if page <= q < page + n || later then Given(s, r, pd, q) else Walk(r.mem, pd, q) == Walk(s.mem, pd, q)
  {
  }

  /**
   * Over every run of requests a page that was asked for is mapped, to a frame that was free at the start, and every
   * other page of the address space resolves as it did.
   */
  lemma {:induction false} RunMaps(s: Vm, pd: Frame, requests: seq<Request>, q: Frame)
    requires s.frames.max <= BITMAP_FRAMES && AllServed(s, pd, requests)
    ensures var r := Serve(s, pd, requests);
            if Asked(requests, q) then Given(s, r, pd, q) else Walk(r.mem, pd, q) == Walk(s.mem, pd, q)
    decreases requests
  {
    if requests != [] {
      var page, n := requests[0].page, PageCount(requests[0].size);
      var t := AllocPages(s, pd, page, n);
      AllocPagesSound(s, pd, page, n);
      AllocPagesMap(s, pd, page, n, q);
      ServeGrows(t, pd, requests[1..]);
      RunMaps(t, pd, requests[1..], q);
      AskedFirst(requests, q);
      GivenOnward(s, t, Serve(t, pd, requests[1..]), pd, page, n, q, Asked(requests[1..], q));
    }
  }

  lemma KernelMapKept(s: Vm, r: Vm, pd: Frame, page: Frame, n: nat)
    requires KernelMapped(s.mem, pd) && AllocAfter(s, r, pd, page, n)
    ensures KernelMapped(r.mem, pd)
  {
    forall i: nat | KERNEL_DIR <= i < ENTRIES
      ensures At(r.mem, pd)[i] == KernelEntry(At(r.mem, pd)[i], i)
    {
      assert At(s.mem, pd)[i] == KernelEntry(At(s.mem, pd)[i], i);
      assert At(s.mem, pd)[i].present;
      assert At(r.mem, pd)[i] == At(s.mem, pd)[i];
    }
  }

  /** The frame below the managed region, which is what the PMM hands out when it has none left. */
  function FrameBelow(f: Frames): Frame {
    if f.base > 0 then f.base - 1 else PAGES - 1
  }

  /** Mapping a page whose table is missing to the very frame its table is made in. */
  lemma TableMapsItself(s: Vm, pd: Frame, page: Frame)
    requires s.frames.max <= BITMAP_FRAMES && NewTable(s) != pd
    requires !At(s.mem, pd)[Dir(page)].present && !At(s.mem, pd)[Dir(page)].large
    ensures var r := MapPage(s, pd, page, NewTable(s));
            && At(r.mem, pd)[Dir(page)] == PointAt(At(s.mem, pd)[Dir(page)], NewTable(s))
            && Walk(r.mem, pd, page) == Some(Mapping(NewTable(s), At(s.mem, pd)[Dir(page)].writable, false))
  {
  }

  /**
   * Exhaustion goes unnoticed: the test for a null frame fires exactly when the managed region starts at the second
   * frame of memory. Otherwise the page is mapped to the frame just below the region, and if its table was missing that
   * same frame becomes the table, so that the page gives access to its own table.
   */
  lemma ExhaustionUnnoticed(s: Vm, pd: Frame, page: Frame)
    requires WellFormed(s, pd) && !Available(s.frames) && !At(s.mem, pd)[Dir(page)].large
    ensures NullNext(s.frames) <==> s.frames.base == 1
    ensures var r := AllocPages(s, pd, page, 1);
            && Walk(r.mem, pd, page) == Some(Mapping(FrameBelow(s.frames), At(s.mem, pd)[Dir(page)].writable, false))
            && (!At(s.mem, pd)[Dir(page)].present ==> At(r.mem, pd)[Dir(page)].address == FrameBelow(s.frames))
  {
    AllocExhausted(s.frames);
    assert s.(frames := Alloc(s.frames)) == s && Allocated(s.frames) == FrameBelow(s.frames);
    assert AllocPages(s, pd, page, 0) == s && Plus(page, 0) == page;
    if At(s.mem, pd)[Dir(page)].present {
      MapPageWalk(s, pd, page, Allocated(s.frames), page);
    } else {
      assert Held(s.frames, pd) && FrameBelow(s.frames) != pd;
      TableMapsItself(s, pd, page);
    }
  }

  // ------------------------------------------------------------------
  // Start of day
  // ------------------------------------------------------------------

  const HEAP_PAGES := 257

  function TakeMany(f: Frames, n: nat): (r: Frames)
    requires f.max <= BITMAP_FRAMES
    ensures r.max == f.max && r.base == f.base
  {
    if n == 0 then f else Alloc(TakeMany(f, n - 1))
  }

  /** The directory `vmm_init` builds in a frame: zeroed, initialised, then given the kernel half. */
  function KernelDirectory(m: Memory, pd: Frame, pse: bool): Memory {
    MapKernel(InitTable(m[pd := ZeroTable()], pd), pd, pse)
  }

  /** State after `vmm_init`: a directory frame, then the frames that back the heap. */
  function Boot(s: Vm, pse: bool): Vm
    requires s.frames.max <= BITMAP_FRAMES
  {
    Vm(KernelDirectory(s.mem, NewTable(s), pse), TakeMany(Alloc(s.frames), HEAP_PAGES))
  }

  function Upto(n: nat): (r: set<nat>)
    ensures forall f: nat :: f in r <==> f < n
    ensures |r| == n
  {
    if n == 0 then {} else Upto(n - 1) + {n - 1}
  }

  /** The frames in use are exactly the first `n`. */
  ghost predicate Packed(f: Frames, n: nat) {
    Consistent(f) && f.used == Upto(n)
  }

  lemma {:induction false} TakeManyInOrder(f: Frames, n: nat)
    requires Packed(f, 0) && n <= Scanned(f.max)
    ensures Packed(TakeMany(f, n), n)
  {
    if n > 0 {
      TakeManyInOrder(f, n - 1);
      TakeNext(TakeMany(f, n - 1), n);
    }
  }

  lemma TakeNext(f: Frames, n: nat)
    requires 0 < n <= Scanned(f.max) && Packed(f, n - 1)
    ensures Packed(Alloc(f), n)
  {
    LowestOfUpto(f, n - 1);
    AllocTakesLowest(f);
  }

  lemma LowestOfUpto(f: Frames, n: nat)
    requires f.used == Upto(n) && n < Scanned(f.max)
    ensures Available(f) && Lowest(f) == n
  {
    assert n !in f.used;
  }

  /** Of the free frames `n` have been taken, and those are lower than the others. */
  ghost predicate LowestTaken(f: Frames, r: Frames, n: nat) {
    && Consistent(r) && r.base == f.base && r.max == f.max && r.count == f.count + n
    && |FreeSet(r)| == |FreeSet(f)| - n
    && (forall x :: x in f.used ==> x in r.used)
    && (forall x, y :: x in FreeSet(r) && y in r.used && y !in f.used ==> y < x)
  }

  lemma LowestNext(f: Frames, t: Frames, n: nat)
    requires LowestTaken(f, t, n) && n < |FreeSet(f)|
    ensures LowestTaken(f, Alloc(t), n + 1)
  {
    FreeSetAvailable(t);
    AllocTakesLowest(t);
    AllocShrinksFreeSet(t);
  }

  /** The frames taken one after the other are the lowest free ones, whatever was in use before. */
  lemma {:induction false} TakesLowest(f: Frames, n: nat)
    requires Consistent(f) && n <= |FreeSet(f)|
    ensures LowestTaken(f, TakeMany(f, n), n)
  {
    if n > 0 {
      TakesLowest(f, n - 1);
      LowestNext(f, TakeMany(f, n - 1), n - 1);
    }
  }

  lemma {:induction false} TakeManyShift(f: Frames, n: nat)
    requires f.max <= BITMAP_FRAMES
    ensures TakeMany(Alloc(f), n) == TakeMany(f, n + 1)
  {
    if n > 0 {
      TakeManyShift(f, n - 1);
    }
  }

  /**
   * From an empty PMM with room, `vmm_init` takes exactly the first 258 frames, the first for the directory,
   * and leaves a sound directory with the direct map in place.
   */
  lemma BootSound(s: Vm, pse: bool)
    requires Consistent(s.frames) && s.frames.used == {} && 0 < s.frames.base
    requires HEAP_PAGES + 1 <= Scanned(s.frames.max)
    ensures NewTable(s) == s.frames.base
    ensures Boot(s, pse).frames.used == Upto(HEAP_PAGES + 1)
    ensures Sound(Boot(s, pse), NewTable(s))
    ensures pse ==> KernelMapped(Boot(s, pse).mem, NewTable(s))
  {
    BootFrames(s.frames);
    KernelDirectoryEmpty(s.mem, NewTable(s), pse);
    assert 0 in Upto(HEAP_PAGES + 1);
    SoundWhenEmpty(Boot(s, pse), NewTable(s));
  }

  lemma SoundWhenEmpty(s: Vm, pd: Frame)
    requires Consistent(s.frames) && Held(s.frames, pd) && 0 < s.frames.base && LowSmall(s.mem, pd)
    requires forall i: nat :: i < ENTRIES ==> !HasTable(s.mem, pd, i)
    requires forall q: Frame :: q < KERNEL_PAGE ==> Walk(s.mem, pd, q) == None
    ensures Sound(s, pd)
  {
  }

  lemma BootFrames(f: Frames)
    requires Packed(f, 0) && HEAP_PAGES + 1 <= Scanned(f.max)
    ensures Allocated(f) == f.base
    ensures Packed(TakeMany(Alloc(f), HEAP_PAGES), HEAP_PAGES + 1)
  {
    LowestOfUpto(f, 0);
    AllocTakesLowest(f);
    TakeManyShift(f, HEAP_PAGES);
    TakeManyInOrder(f, HEAP_PAGES + 1);
  }

  /** Nothing is mapped below the kernel half, and the directory uses no page table. */
  lemma KernelDirectoryEmpty(m: Memory, pd: Frame, pse: bool)
    ensures forall i: nat :: i < ENTRIES ==> !HasTable(KernelDirectory(m, pd, pse), pd, i)
    ensures LowSmall(KernelDirectory(m, pd, pse), pd)
    ensures forall q: Frame :: q < KERNEL_PAGE ==> Walk(KernelDirectory(m, pd, pse), pd, q) == None
    ensures pse ==> KernelMapped(KernelDirectory(m, pd, pse), pd)
  {
    var r := KernelDirectory(m, pd, pse);
    EmptyLowHalf(m, pd, pse);
    MapKernelMaps(InitTable(m[pd := ZeroTable()], pd), pd, pse);
    forall i: nat | i < ENTRIES
      ensures !HasTable(r, pd, i)
    {
      if i >= KERNEL_DIR && pse {
        assert At(r, pd)[i] == KernelEntry(At(r, pd)[i], i);
      }
    }
    forall q: Frame | q < KERNEL_PAGE
      ensures Walk(r, pd, q) == None
    {
      assert Dir(q) < KERNEL_DIR;
    }
  }

  /** All that `vmm_init` leaves in memory: the directory, entry by entry, and every other frame as it was. */
  lemma BootMemory(s: Vm, pse: bool, f: int, i: nat)
    requires s.frames.max <= BITMAP_FRAMES && i < ENTRIES
    ensures At(Boot(s, pse).mem, f)[i] ==
            if f != NewTable(s) then At(s.mem, f)[i]
            else if i >= 768 && pse then Entry(true, true, false, 0, true, 0, (i - 768) * 1024)
            else Entry(false, true, false, 0, false, 0, 0)
  {
    var pd := NewTable(s);
    MapKernelEntries(InitTable(s.mem[pd := ZeroTable()], pd), pd, pse, f, i);
    InitTableEntries(s.mem[pd := ZeroTable()], pd, f, i);
  }

  lemma EmptyLowHalf(m: Memory, pd: Frame, pse: bool)
    ensures forall i: nat :: i < KERNEL_DIR ==>
              At(KernelDirectory(m, pd, pse), pd)[i] == Cleared(ZERO_ENTRY)
    ensures forall i: nat :: i < ENTRIES && !pse ==>
              At(KernelDirectory(m, pd, pse), pd)[i] == Cleared(ZERO_ENTRY)
  {
    MapKernelMaps(InitTable(m[pd := ZeroTable()], pd), pd, pse);
  }

  /** Where `vmm_init` puts the heap, given the end of the kernel image. */
  function HeapStart(kernelVirtEnd: uint32): uint32 {
    Align4K(Add(kernelVirtEnd, FRAME_SIZE))
  }

  /**
   * The heap is never mapped explicitly: it lies in the direct map, on precisely the frames that `vmm_init`
   * reserved after the directory's, because the PMM region and the heap both start at the rounded-up kernel end.
   */
  lemma HeapLiesOnReservedFrames(s: Vm, pse: bool, kernelPhysEnd: uint32, offset: nat)
    requires Consistent(s.frames) && s.frames.used == {}
    requires HEAP_PAGES + 1 <= Scanned(s.frames.max)
    requires 0 < kernelPhysEnd < 0x3F00_0000 && Start(s.frames) == Align4K(kernelPhysEnd)
    requires pse && offset < HEAP_BYTES
    ensures var v := HeapStart(PhyToVir(kernelPhysEnd)) as int + offset;
            && v < TWO32
            && var p := Translate(Boot(s, pse).mem, NewTable(s), v);
            && p.Some?
            && 1 <= FrameOf(s.frames, p.value) <= HEAP_PAGES
            && FrameOf(s.frames, p.value) in Boot(s, pse).frames.used
  {
    Align4KRoundsUp(kernelPhysEnd);
    Align4KRoundsUp(Add(PhyToVir(kernelPhysEnd), FRAME_SIZE));
    HeapStartIs(kernelPhysEnd);
    BootSound(s, pse);
    var v := HeapStart(PhyToVir(kernelPhysEnd)) as int + offset;
    DirectMap(Boot(s, pse).mem, NewTable(s), v);
    assert VirToPhy(v) == Start(s.frames) + 4096 + offset;
  }

  /** The heap starts at a page, more than one frame and less than two after the kernel, but for its last two pages. */
  lemma HeapStartRoundsUp(kernelVirtEnd: uint32)
    ensures HeapStart(kernelVirtEnd) % 4096 == 0
    ensures kernelVirtEnd <= 0xFFFF_E000 ==> kernelVirtEnd + 4096 <= HeapStart(kernelVirtEnd) < kernelVirtEnd + 8192
    ensures kernelVirtEnd > 0xFFFF_E000 ==>
              HeapStart(kernelVirtEnd) == if kernelVirtEnd <= 0xFFFF_F000 then 0 else 4096
  {
    Align4KRoundsUp(Add(kernelVirtEnd, FRAME_SIZE));
  }

  lemma HeapStartIs(kernelPhysEnd: uint32)
    requires kernelPhysEnd < 0x3F00_0000
    ensures HeapStart(PhyToVir(kernelPhysEnd)) == Align4K(kernelPhysEnd) + 4096 + KERNEL_BASE
  {
    var y := kernelPhysEnd + 4095;
    assert PhyToVir(kernelPhysEnd) == kernelPhysEnd + 0xC000_0000;
    assert Add(PhyToVir(kernelPhysEnd), FRAME_SIZE) == kernelPhysEnd + 0xC000_1000;
    SamePageOffset(y, 0xC0001);
  }

  /** The heap's place is one the heap allocator can work in. */
  lemma HeapHasPlace(kernelPhysEnd: uint32)
    requires kernelPhysEnd < 0x3F00_0000
    ensures HeapMemory.Place(HeapStart(PhyToVir(kernelPhysEnd)))
  {
    HeapStartIs(kernelPhysEnd);
    Align4KRoundsUp(kernelPhysEnd);
  }

  lemma SamePageOffset(y: nat, pages: nat)
    ensures (y + pages * 4096) % 4096 == y % 4096
  {
    DivModUnique(y + pages * 4096, 4096, y / 4096 + pages, y % 4096);
  }

  // ------------------------------------------------------------------
  // Directories of user tasks
  // ------------------------------------------------------------------

  /** `task_create` builds a user task's directory without zeroing the frame first. */
  function UserDirectory(m: Memory, pd: Frame, pse: bool): Memory {
    MapKernel(InitTable(m, pd), pd, pse)
  }

  /**
   * So such a directory can be mapped into exactly where the recycled frame happened to have the size bit
   * clear: there, and only there, does `paging_map` of a user page update the translation as it should.
   */
  lemma UserDirectoryMapsWhereClear(s: Vm, pd: Frame, pse: bool, page: Frame, target: Frame)
    requires Consistent(s.frames) && Held(s.frames, pd) && Available(s.frames)
    requires page < KERNEL_PAGE
    ensures var u := Vm(UserDirectory(s.mem, pd, pse), s.frames);
            && ((forall q: Frame ::
                   Walk(MapPage(u, pd, page, target).mem, pd, q) == Updated(u.mem, pd, page, target, 1, q))
                <==> !At(s.mem, pd)[Dir(page)].large)
  {
    var u := Vm(UserDirectory(s.mem, pd, pse), s.frames);
    MapKernelMaps(InitTable(s.mem, pd), pd, pse);
    assert Dir(page) < KERNEL_DIR;
    assert At(u.mem, pd)[Dir(page)] == Cleared(At(s.mem, pd)[Dir(page)]);
    forall i: nat | i < ENTRIES
      ensures !HasTable(u.mem, pd, i)
    {
      if i >= KERNEL_DIR && pse {
        assert At(u.mem, pd)[i] == KernelEntry(At(u.mem, pd)[i], i);
      }
    }
    FreshTableNeedsClearSizeBit(u, pd, page, target);
  }

  // ------------------------------------------------------------------
  // The code itself
  // ------------------------------------------------------------------

  class VirtualMemory {
    const paging: PageMemory
    var kernelPd: uint32
    var currentPd: uint32
    var heapStart: uint32
    var heapEnd: uint32

    ghost predicate Valid()
      reads this, paging, paging.pmm, paging.pmm.bitmap
    {
      paging.Valid()
    }

    ghost function Abs(): Vm
      reads this, paging, paging.pmm
    {
      paging.Abs()
    }

    constructor (memory: PageMemory)
      requires memory.Valid()
      ensures Valid() && paging == memory
    {
      paging := memory;
      kernelPd, currentPd, heapStart, heapEnd := 0, 0, 0, 0;
    }

    /** `vmm_map_kernel`: fills in the kernel half of the directory at virtual address `directory`. */
    method MapKernelInto(directory: uint32, pse: bool)
      modifies paging`mem
      ensures paging.mem == MapKernel(old(paging.mem), PageOf(VirToPhy(directory)), pse)
    {
      var pd := PageOf(VirToPhy(directory));
      if pse {
        var currentAddr := 0;
        ghost var before := At(paging.mem, pd);
        for i := KERNEL_DIR to ENTRIES
          invariant currentAddr == (i - KERNEL_DIR) * 0x40_0000
          invariant i == KERNEL_DIR ==> paging.mem == old(paging.mem)
          invariant i > KERNEL_DIR ==> paging.mem == old(paging.mem)[pd := KernelTo(before, i)]
        {
          var e := At(paging.mem, pd)[i];
          paging.mem := paging.mem[pd := At(paging.mem, pd)[i :=
            e.(present := true, writable := true, user := false, large := true, address := currentAddr / 4096)]];
          assert At(paging.mem, pd) == KernelTo(before, i + 1);
          currentAddr := currentAddr + 0x40_0000;
        }
      }
    }

    /** `vmm_map` */
    method Map(virtualAddr: uint32, physicalAddr: uint32, size: uint32) returns (r: uint32)
      requires Valid() && currentPd % 4096 == 0
      modifies paging`mem, paging.pmm`framesUsed, paging.pmm`used, paging.pmm.bitmap
      ensures Valid() && r == 0
      ensures Abs() ==
              if size % 4096 != 0 then old(Abs())
              else MapPages(old(Abs()), PageOf(VirToPhy(currentPd)), PageOf(virtualAddr), PageOf(physicalAddr),
                size / 4096)
    {
      var ignored := paging.Map(VirToPhy(currentPd), virtualAddr, physicalAddr, size);
      return 0;
    }

    method CountPages(size: uint32) returns (pages: nat)
      ensures pages == PageCount(size)
    {
      pages := Align4K(size) / 4096;
    }

    /** `vmm_alloc_pages` */
    method AllocatePages(virtualAddr: uint32, size: uint32) returns (r: uint32)
      requires Valid() && currentPd % 4096 == 0
      modifies paging`mem, paging.pmm`framesUsed, paging.pmm`used, paging.pmm.bitmap
      ensures Valid()
      ensures size == 0 ==> r == ERR_INVALID_SIZE && Abs() == old(Abs())
      ensures size != 0 && r == 0 ==>
                && Abs() == AllocPages(old(Abs()), PageOf(VirToPhy(currentPd)), PageOf(virtualAddr), PageCount(size))
                && !MeetsNull(old(Abs()), PageOf(VirToPhy(currentPd)), PageOf(virtualAddr), PageCount(size))
      ensures size != 0 && r != 0 ==>
                && r == ERR_PHYS_EXHAUSTED
                && exists k: nat ::
                     && k < PageCount(size)
                     && StopsAt(old(Abs()), Abs(), PageOf(VirToPhy(currentPd)), PageOf(virtualAddr), k)
    {
      if size <= 0 {
        return ERR_INVALID_SIZE;
      }
      var pageCount := CountPages(size);
      var currentVaddr := virtualAddr;
      ghost var s, pd, page := Abs(), PageOf(VirToPhy(currentPd)), PageOf(virtualAddr);
      ghost var trace := [s];
      for i := 0 to pageCount
        invariant Valid()
        invariant currentVaddr == Advance(virtualAddr, i)
        invariant |trace| == i + 1 && trace[i] == Abs()
        invariant IsTrace(s, trace, pd, page) && NoNull(trace)
      {
        AdvancePage(virtualAddr, i);
        ghost var t := Abs();
        var physPageAddr := AllocateOne(currentVaddr);
        assert trace[|trace| - 1] == t && t.frames.max <= BITMAP_FRAMES && (physPageAddr == 0 <==> NullNext(t.frames));
        if physPageAddr == 0 {
          TraceStops(s, trace, Abs(), pd, page);
          return ERR_PHYS_EXHAUSTED;
        }
        TraceTurns(s, trace, Abs(), pd, page);
        trace := trace + [Abs()];
        currentVaddr := Add(currentVaddr, 4096);
      }
      TraceEnds(s, trace, pd, page);
      return 0;
    }

    /** The body of the loop: a frame for the page, then its mapping. */
    method AllocateOne(currentVaddr: uint32) returns (physPageAddr: uint32)
      requires Valid() && currentPd % 4096 == 0
      modifies paging`mem, paging.pmm`framesUsed, paging.pmm`used, paging.pmm.bitmap
      ensures Valid()
      ensures physPageAddr == AllocAddress(old(Abs()).frames)
      ensures physPageAddr == 0 <==> NullNext(old(Abs()).frames)
      ensures physPageAddr == 0 ==> Abs() == old(Abs()).(frames := Alloc(old(Abs()).frames))
      ensures physPageAddr != 0 ==> Abs() == AllocPage(old(Abs()), PageOf(VirToPhy(currentPd)), PageOf(currentVaddr))
    {
      ghost var s := Abs();
      physPageAddr := paging.pmm.AllocFrame();
      if physPageAddr != 0 {
        var ignored := paging.Map(VirToPhy(currentPd), currentVaddr, physPageAddr, 4096);
        MapPagesOnce(s.(frames := Alloc(s.frames)), PageOf(VirToPhy(currentPd)), PageOf(currentVaddr),
          PageOf(physPageAddr));
      }
    }

    /** `vmm_init`, up to handing the heap its memory. */
    method Init(kernelVirtEnd: uint32, pse: bool) returns (r: uint32)
      requires Valid()
      modifies this, paging`mem, paging.pmm`framesUsed, paging.pmm`used, paging.pmm.bitmap
      ensures Valid()
      ensures kernelPd == currentPd == PhyToVir(AllocAddress(old(Abs()).frames))
      ensures r == 1 || r == ERR_PHYS_EXHAUSTED
      ensures currentPd == 0 ==>
                && r == ERR_PHYS_EXHAUSTED
                && Abs() == Vm(old(paging.mem)[NewTable(old(Abs())) := ZeroTable()], Alloc(old(Abs()).frames))
                && heapStart == old(heapStart) && heapEnd == old(heapEnd)
      ensures currentPd != 0 ==>
                && paging.mem == KernelDirectory(old(paging.mem), NewTable(old(Abs())), pse)
                && heapStart == HeapStart(kernelVirtEnd)
                && heapEnd == Add(heapStart, HEAP_BYTES)
      ensures currentPd != 0 && r != 1 ==>
                exists k: nat :: k < HEAP_PAGES && ReserveStops(Alloc(old(Abs()).frames), Abs().frames, k)
      ensures r == 1 ==>
                && currentPd != 0 && Abs() == Boot(old(Abs()), pse)
                && Reserved(Alloc(old(Abs()).frames), Abs().frames, HEAP_PAGES)
    {
      var ok := BuildDirectory(pse);
      if !ok {
        return ERR_PHYS_EXHAUSTED;
      }
      heapStart := Align4K(Add(kernelVirtEnd, FRAME_SIZE));
      heapEnd := Add(heapStart, HEAP_BYTES);
      ghost var f := paging.pmm.Abs();
      ok := ReserveHeapFrames();
      if !ok {
        ghost var k: nat :| k < HEAP_PAGES && ReserveStops(f, paging.pmm.Abs(), k);
        assert ReserveStops(f, Abs().frames, k);
      }
      return if ok then 1 else ERR_PHYS_EXHAUSTED;
    }

    /** The loop of `vmm_init` that takes a frame for every page of the heap. */
    method ReserveHeapFrames() returns (ok: bool)
      requires Valid()
      modifies paging.pmm`framesUsed, paging.pmm`used, paging.pmm.bitmap
      ensures Valid()
      ensures ok ==> Reserved(old(paging.pmm.Abs()), paging.pmm.Abs(), HEAP_PAGES)
      ensures !ok ==> exists k: nat :: k < HEAP_PAGES && ReserveStops(old(paging.pmm.Abs()), paging.pmm.Abs(), k)
    {
      var pageCount := HeapPageCount();
      ghost var f := paging.pmm.Abs();
      for i := 0 to pageCount
        invariant Valid() && Reserved(f, paging.pmm.Abs(), i)
      {
        ghost var g := paging.pmm.Abs();
        var physPageAddr := paging.pmm.AllocFrame();
        if physPageAddr == 0 {
          assert ReserveStops(f, paging.pmm.Abs(), i);
          return false;
        }
        ReserveNext(f, g, i);
      }
      return true;
    }

    method HeapPageCount() returns (pageCount: nat)
      ensures pageCount == HEAP_PAGES
    {
      pageCount := Align4K(HEAP_BYTES) / 4096;
    }

    /** The first half of `vmm_init`: a zeroed frame becomes the kernel's directory. */
    method BuildDirectory(pse: bool) returns (ok: bool)
      requires Valid()
      modifies this, paging`mem, paging.pmm`framesUsed, paging.pmm`used, paging.pmm.bitmap
      ensures Valid()
      ensures kernelPd == currentPd == PhyToVir(AllocAddress(old(Abs()).frames))
      ensures heapStart == old(heapStart) && heapEnd == old(heapEnd)
      ensures ok <==> currentPd != 0
      ensures paging.pmm.Abs() == Alloc(old(Abs()).frames)
      ensures ok ==> paging.mem == KernelDirectory(old(paging.mem), NewTable(old(Abs())), pse)
      ensures !ok ==> paging.mem == old(paging.mem)[NewTable(old(Abs())) := ZeroTable()]
    {
      var addr := paging.pmm.AllocFrame();
      kernelPd := PhyToVir(addr);
      currentPd := kernelPd;
      assert VirToPhy(currentPd) == addr && addr % 4096 == 0;
      paging.mem := paging.mem[PageOf(addr) := ZeroTable()];
      if currentPd == 0 {
        return false;
      }
      var ignored := paging.InitDirectory(VirToPhy(currentPd));
      MapKernelInto(currentPd, pse);
      return true;
    }
  }

  /** Some one of `n` turns is handed the null address. */
  ghost predicate MeetsNull(s: Vm, pd: Frame, page: Frame, n: nat)
    requires s.frames.max <= BITMAP_FRAMES
  {
    exists k: nat :: k < n && NullNext(AllocPages(s, pd, page, k).frames)
  }

  /** `n` frames have been taken from `f`, none of them the null frame. */
  ghost predicate Reserved(f: Frames, g: Frames, n: nat)
    requires f.max <= BITMAP_FRAMES
  {
    g == TakeMany(f, n) && forall k: nat :: k < n ==> !NullNext(TakeMany(f, k))
  }

  /** Frame `k` is the first to be null, and the loop ends with it taken. */
  ghost predicate ReserveStops(f: Frames, g: Frames, k: nat)
    requires f.max <= BITMAP_FRAMES
  {
    Reserved(f, TakeMany(f, k), k) && NullNext(TakeMany(f, k)) && g == Alloc(TakeMany(f, k))
  }

  lemma ReserveNext(f: Frames, g: Frames, n: nat)
    requires f.max <= BITMAP_FRAMES && Reserved(f, g, n) && !NullNext(g)
    ensures Reserved(f, Alloc(g), n + 1)
  {
  }

  /** Turn `k` is the first to be handed the null address, and the loop ends there: the pages before it stay mapped. */
  ghost predicate StopsAt(s: Vm, r: Vm, pd: Frame, page: Frame, k: nat)
    requires s.frames.max <= BITMAP_FRAMES
  {
    var t := AllocPages(s, pd, page, k);
    && NullNext(t.frames) && !MeetsNull(s, pd, page, k)
    && r == t.(frames := Alloc(t.frames))
  }

  /** None of the states but the last was about to hand out the null address. */
  ghost predicate NoNull(trace: seq<Vm>) {
    forall k: nat :: k < |trace| - 1 ==> trace[k].frames.max <= BITMAP_FRAMES && !NullNext(trace[k].frames)
  }

  lemma TraceTurns(s: Vm, trace: seq<Vm>, next: Vm, pd: Frame, page: Frame)
    requires IsTrace(s, trace, pd, page) && NoNull(trace)
    requires var t := trace[|trace| - 1];
             !NullNext(t.frames) && next == AllocPage(t, pd, Plus(page, |trace| - 1))
    ensures IsTrace(s, trace + [next], pd, page) && NoNull(trace + [next])
  {
  }

  lemma {:induction false} TraceAt(s: Vm, trace: seq<Vm>, pd: Frame, page: Frame, k: nat)
    requires IsTrace(s, trace, pd, page) && k < |trace|
    ensures trace[k] == AllocPages(s, pd, page, k)
  {
    if k > 0 {
      var j: nat, t := k - 1, trace[k - 1];
      assert trace[j + 1] == AllocPage(t, pd, Plus(page, j));
      assert t == AllocPages(s, pd, page, j) by {
        TraceAt(s, trace, pd, page, j);
      }
      AllocPagesNext(s, t, pd, page, j);
    }
  }

  lemma TraceEnds(s: Vm, trace: seq<Vm>, pd: Frame, page: Frame)
    requires IsTrace(s, trace, pd, page) && NoNull(trace)
    ensures trace[|trace| - 1] == AllocPages(s, pd, page, |trace| - 1)
    ensures !MeetsNull(s, pd, page, |trace| - 1)
  {
    forall k: nat | k < |trace|
      ensures trace[k] == AllocPages(s, pd, page, k)
    {
      TraceAt(s, trace, pd, page, k);
    }
  }

  lemma TraceStops(s: Vm, trace: seq<Vm>, r: Vm, pd: Frame, page: Frame)
    requires IsTrace(s, trace, pd, page) && NoNull(trace)
    requires var t := trace[|trace| - 1]; NullNext(t.frames) && r == t.(frames := Alloc(t.frames))
    ensures StopsAt(s, r, pd, page, |trace| - 1)
  {
    TraceEnds(s, trace, pd, page);
  }

  lemma MapPagesOnce(s: Vm, pd: Frame, page: Frame, target: Frame)
    requires s.frames.max <= BITMAP_FRAMES
    ensures MapPages(s, pd, page, target, 1) == MapPage(s, pd, page, target)
  {
    assert Plus(page, 0) == page && Plus(target, 0) == target;
    assert MapPages(s, pd, page, target, 0) == s;
  }
}
