/**
 * Where `paging_map` finds page tables, arch/x86/kernel/paging.c: it uses their physical addresses as pointers while
 * paging is on, so each access goes through the directory that is loaded.
 */
module TableAccess {
  import opened Words
  import opened Pmm
  import opened Paging
  import opened Vmm
  import opened PageRanges

  /** Used as a virtual address, the physical address of the frame reaches that frame. */
  predicate Reached(m: Memory, loaded: Frame, frame: Frame) {
    Translate(m, loaded, frame * 4096) == Some(frame * 4096)
  }

  /** One word of a table is found where the others are: the accesses reach the table, all of them, or none does. */
  lemma ReachedThroughout(m: Memory, loaded: Frame, table: Frame, i: nat)
    requires i < ENTRIES
    ensures Translate(m, loaded, table * 4096 + 4 * i) == Some(table * 4096 + 4 * i) <==> Reached(m, loaded, table)
    ensures Reached(m, loaded, table) <==> Walk(m, loaded, table).Some? && Walk(m, loaded, table).value.page == table
  {
    InTable(table, 4 * i);
    InTable(table, 0);
  }

  lemma InTable(table: Frame, offset: nat)
    requires offset < 4096
    ensures PageOf(table * 4096 + offset) == table && (table * 4096 + offset) % 4096 == offset
  {
  }

  /**
   * Filling in an entry of the table at a physical address, wherever the loaded directory takes that; or a page fault.
   */
  function FillVia(s: Vm, loaded: Frame, table: Frame, i: nat, target: Frame): Option<Vm>
    requires i < ENTRIES
  {
    match Walk(s.mem, loaded, table)
    case None => None
    case Some(r) => Some(s.(mem := WriteEntry(s.mem, r.page, i, MapTo(At(s.mem, r.page)[i], target))))
  }

  /**
   * One turn of the loop of `paging_map` with its accesses to page tables made through the directory `loaded`, or
   * nothing when one of them faults. The directory `pd` itself is reached through the kernel's direct map.
   */
  function MapPageVia(s: Vm, loaded: Frame, pd: Frame, page: Frame, target: Frame): Option<Vm>
    requires s.frames.max <= BITMAP_FRAMES
  {
    var pde := At(s.mem, pd)[Dir(page)];
    if pde.present then
      FillVia(s, loaded, pde.address, Idx(page), target)
    else
      var t := NewTable(s);
      match Walk(s.mem, loaded, t)
      case None => None
      case Some(r) =>
        var m := InitTable(s.mem, r.page);
        var m' := WriteEntry(m, pd, Dir(page), PointAt(At(m, pd)[Dir(page)], t));
        FillVia(Vm(m', Alloc(s.frames)), loaded, t, Idx(page), target)
  }

  /** The frame `paging_map` takes for the page's table. */
  function TableFor(s: Vm, pd: Frame, page: Frame): Frame
    requires s.frames.max <= BITMAP_FRAMES
  {
    var pde := At(s.mem, pd)[Dir(page)];
    if pde.present then pde.address else NewTable(s)
  }

  lemma StillReached(s: Vm, pd: Frame, page: Frame, t: Frame)
    requires WellFormed(s, pd) && Available(s.frames) && !At(s.mem, pd)[Dir(page)].present
    requires t == NewTable(s) && Reached(s.mem, pd, t)
    ensures Walk(WithTable(s, pd, Dir(page)).mem, pd, t) == Walk(s.mem, pd, t)
  {
    NewTableIsFresh(s);
    ReachedThroughout(s.mem, pd, t, 0);
    assert HasTable(s.mem, pd, Dir(t)) || At(s.mem, pd)[Dir(t)].large;
    WalkKept(s, pd, Dir(page), t);
  }

  lemma WalkKept(s: Vm, pd: Frame, i: nat, q: Frame)
    requires s.frames.max <= BITMAP_FRAMES && i < ENTRIES && Dir(q) != i && NewTable(s) != pd
    requires HasTable(s.mem, pd, Dir(q)) ==>
               At(s.mem, pd)[Dir(q)].address != NewTable(s) && At(s.mem, pd)[Dir(q)].address != pd
    ensures Walk(WithTable(s, pd, i).mem, pd, q) == Walk(s.mem, pd, q)
  {
  }

  /**
   * With the directory it edits loaded, a turn of the loop does what it does to physical memory exactly as far as the
   * table it uses is reached at its physical address; where nothing is mapped at that address it faults.
   */
  lemma MapsWhereReached(s: Vm, pd: Frame, page: Frame, target: Frame)
    requires WellFormed(s, pd) && (At(s.mem, pd)[Dir(page)].present || Available(s.frames))
    ensures Reached(s.mem, pd, TableFor(s, pd, page)) ==>
              MapPageVia(s, pd, pd, page, target) == Some(MapPage(s, pd, page, target))
    ensures Walk(s.mem, pd, TableFor(s, pd, page)) == None ==> MapPageVia(s, pd, pd, page, target) == None
  {
    var t := TableFor(s, pd, page);
    if Reached(s.mem, pd, t) {
      ReachedThroughout(s.mem, pd, t, 0);
      if !At(s.mem, pd)[Dir(page)].present {
        StillReached(s, pd, page, t);
      }
    }
  }

  // ------------------------------------------------------------------
  // Between calls of vmm_alloc_pages
  // ------------------------------------------------------------------

  /**
   * The code asks for a mapping of `page` in a state like those between its calls, and finds or takes a table for it.
   */
  ghost predicate Asks(s: Vm, pd: Frame, page: Frame) {
    Sound(s, pd) && page < KERNEL_PAGE && (At(s.mem, pd)[Dir(page)].present || Available(s.frames))
  }

  /** What the table's frame is. */
  lemma TableIsNoData(s: Vm, pd: Frame, page: Frame, t: Frame)
    requires Asks(s, pd, page) && t == TableFor(s, pd, page)
    ensures !IsData(s, pd, t)
  {
    if At(s.mem, pd)[Dir(page)].present {
      assert HasTable(s.mem, pd, Dir(page));
    } else {
      NewTableIsFresh(s);
    }
  }

  /** Managed memory below 3 GB puts every table there. */
  lemma TableBelow(s: Vm, pd: Frame, page: Frame)
    requires Asks(s, pd, page) && s.frames.base + s.frames.max <= KERNEL_PAGE
    ensures TableFor(s, pd, page) < KERNEL_PAGE
  {
    if At(s.mem, pd)[Dir(page)].present {
      assert HasTable(s.mem, pd, Dir(page));
    } else {
      AllocTakesLowest(s.frames);
    }
  }

  /**
   * In no such state does the table's physical address reach the table: below the kernel half only data frames are
   * mapped, and the direct map takes an address of the kernel half to a lower one.
   */
  lemma NeverReached(s: Vm, pd: Frame, page: Frame)
    requires Asks(s, pd, page) && (TableFor(s, pd, page) < KERNEL_PAGE || KernelMapped(s.mem, pd))
    ensures !Reached(s.mem, pd, TableFor(s, pd, page))
  {
    var t := TableFor(s, pd, page);
    ReachedThroughout(s.mem, pd, t, 0);
    if t < KERNEL_PAGE {
      TableIsNoData(s, pd, page, t);
    } else {
      InTable(t, 0);
      DirectMap(s.mem, pd, t * 4096);
    }
  }

  /** So over every run of requests, whatever is asked for next, the code does not reach the table it is to edit. */
  lemma RunNeverReaches(s: Vm, pd: Frame, requests: seq<Request>, page: Frame)
    requires s.frames.max <= BITMAP_FRAMES
    requires Sound(s, pd) && KernelMapped(s.mem, pd) && AllServed(s, pd, requests)
    requires Asks(Serve(s, pd, requests), pd, page)
    ensures !Reached(Serve(s, pd, requests).mem, pd, TableFor(Serve(s, pd, requests), pd, page))
  {
    RunKeepsDirectMap(s, pd, requests);
    NeverReached(Serve(s, pd, requests), pd, page);
  }

  lemma {:induction false} RunKeepsDirectMap(s: Vm, pd: Frame, requests: seq<Request>)
    requires s.frames.max <= BITMAP_FRAMES && KernelMapped(s.mem, pd) && AllServed(s, pd, requests)
    ensures KernelMapped(Serve(s, pd, requests).mem, pd)
    decreases requests
  {
    if requests != [] {
      var n := PageCount(requests[0].size);
      AllocPagesSound(s, pd, requests[0].page, n);
      KernelMapKept(s, AllocPages(s, pd, requests[0].page, n), pd, requests[0].page, n);
      RunKeepsDirectMap(AllocPages(s, pd, requests[0].page, n), pd, requests[1..]);
    }
  }

  /**
   * Memory after an entry meant for a table has been written into frame `d`, all of it cleared first when the table is
   * new.
   */
  function Overwritten(s: Vm, pd: Frame, page: Frame, target: Frame, d: Frame): Memory
    requires s.frames.max <= BITMAP_FRAMES
  {
    var pde := At(s.mem, pd)[Dir(page)];
    var m := if pde.present then s.mem
             else WriteEntry(InitTable(s.mem, d), pd, Dir(page), PointAt(pde, NewTable(s)));
    WriteEntry(m, d, Idx(page), MapTo(At(m, d)[Idx(page)], target))
  }

  lemma MissingTableAstray(s: Vm, pd: Frame, page: Frame, target: Frame, t: Frame, d: Frame)
    requires Asks(s, pd, page) && !At(s.mem, pd)[Dir(page)].present && t == NewTable(s)
    requires Walk(s.mem, pd, t).Some? && Walk(s.mem, pd, t).value.page == d && IsData(s, pd, d) && t < KERNEL_PAGE
    ensures MapPageVia(s, pd, pd, page, target) == Some(Vm(Overwritten(s, pd, page, target, d), Alloc(s.frames)))
  {
    NewTableIsFresh(s);
    var m := InitTable(s.mem, d);
    var m' := WriteEntry(m, pd, Dir(page), PointAt(At(m, pd)[Dir(page)], t));
    assert Dir(t) != Dir(page);
    assert HasTable(s.mem, pd, Dir(t)) && IsTable(s.mem, pd, At(s.mem, pd)[Dir(t)].address);
    assert Walk(m', pd, t) == Walk(s.mem, pd, t);
  }

  /**
   * What a turn does instead: it faults where nothing is mapped at the table's address, and otherwise writes into the
   * data frame of the user page that is mapped there.
   */
  lemma Astray(s: Vm, pd: Frame, page: Frame, target: Frame)
    requires Asks(s, pd, page) && TableFor(s, pd, page) < KERNEL_PAGE
    ensures match Walk(s.mem, pd, TableFor(s, pd, page))
            case None => MapPageVia(s, pd, pd, page, target) == None
            case Some(mapping) =>
              && IsData(s, pd, mapping.page)
              && MapPageVia(s, pd, pd, page, target) ==
                 Some(Vm(Overwritten(s, pd, page, target, mapping.page),
                         if At(s.mem, pd)[Dir(page)].present then s.frames else Alloc(s.frames)))
  {
    var t := TableFor(s, pd, page);
    match Walk(s.mem, pd, t)
    case None =>
    case Some(mapping) =>
      if !At(s.mem, pd)[Dir(page)].present {
        MissingTableAstray(s, pd, page, target, t, mapping.page);
      }
  }

  /** The turn returns, and the translation is the one asked for. */
  ghost predicate MapsViaUpdate(s: Vm, pd: Frame, page: Frame, target: Frame)
    requires s.frames.max <= BITMAP_FRAMES
  {
    var r := MapPageVia(s, pd, pd, page, target);
    r.Some? && forall q: Frame :: Walk(r.value.mem, pd, q) == Updated(s.mem, pd, page, target, 1, q)
  }

  /** A write to a data frame changes no translation. */
  lemma DataWriteKeepsWalk(s: Vm, m: Memory, pd: Frame, d: Frame, q: Frame)
    requires IsData(s, pd, d) && forall f :: f != d ==> At(m, f) == At(s.mem, f)
    ensures Walk(m, pd, q) == Walk(s.mem, pd, q)
  {
    if HasTable(s.mem, pd, Dir(q)) {
      assert IsTable(s.mem, pd, At(s.mem, pd)[Dir(q)].address);
    }
  }

  /** With a table present, that is so exactly when something answers there and the page was mapped as asked already. */
  lemma PresentExactly(s: Vm, pd: Frame, page: Frame, target: Frame)
    requires Asks(s, pd, page) && At(s.mem, pd)[Dir(page)].present && TableFor(s, pd, page) < KERNEL_PAGE
    ensures var e := At(s.mem, pd)[Dir(page)];
            MapsViaUpdate(s, pd, page, target) <==>
            && Walk(s.mem, pd, e.address).Some?
            && Walk(s.mem, pd, page) == Some(Mapping(target, e.writable, false))
  {
    Astray(s, pd, page, target);
    var w := Walk(s.mem, pd, TableFor(s, pd, page));
    if w.Some? {
      var m := Overwritten(s, pd, page, target, w.value.page);
      forall q: Frame
        ensures Walk(m, pd, q) == Walk(s.mem, pd, q)
        ensures q != page ==> Updated(s.mem, pd, page, target, 1, q) == Walk(s.mem, pd, q)
      {
        DataWriteKeepsWalk(s, m, pd, w.value.page, q);
        UpdatedOnce(s.mem, pd, page, target, q);
      }
      UpdatedOnce(s.mem, pd, page, target, page);
    }
  }

  /** What the frame taken for a new table holds by chance is just the entry asked for. */
  ghost predicate HoldsByChance(m: Memory, pd: Frame, t: Frame, page: Frame, target: Frame) {
    && (forall i: nat :: i < ENTRIES && i != Idx(page) ==> !At(m, t)[i].present)
    && var e, pde := At(m, t)[Idx(page)], At(m, pd)[Dir(page)];
       && e.present && e.address == target
       && (pde.writable ==> e.writable) && !(pde.user && e.user)
  }

  /** Where page `q` resolves through what the new table's frame happens to hold. */
  function ThroughNew(s: Vm, pd: Frame, page: Frame, q: Frame): Option<Mapping>
    requires s.frames.max <= BITMAP_FRAMES
  {
    var pde, pte := At(s.mem, pd)[Dir(page)], At(s.mem, NewTable(s))[Idx(q)];
    if !pte.present then None
    else Some(Mapping(pte.address, pde.writable && pte.writable, pde.user && pte.user))
  }

  lemma NewTableWalk(s: Vm, m: Memory, pd: Frame, page: Frame, target: Frame, d: Frame, q: Frame)
    requires Asks(s, pd, page) && !At(s.mem, pd)[Dir(page)].present && IsData(s, pd, d)
    requires m == Overwritten(s, pd, page, target, d)
    ensures Walk(m, pd, q) == if Dir(q) == Dir(page) then ThroughNew(s, pd, page, q) else Walk(s.mem, pd, q)
  {
    NewTableIsFresh(s);
    if HasTable(s.mem, pd, Dir(q)) {
      assert IsTable(s.mem, pd, At(s.mem, pd)[Dir(q)].address);
    }
  }

  /** The asked-for translation of the pages under the new table, one by one and all at once. */
  lemma ChanceDecides(s: Vm, pd: Frame, page: Frame, target: Frame)
    requires s.frames.max <= BITMAP_FRAMES && !At(s.mem, pd)[Dir(page)].present
    ensures (forall q: Frame {:trigger ThroughNew(s, pd, page, q)} :: Dir(q) == Dir(page) ==>
               ThroughNew(s, pd, page, q) ==
               if q == page then Some(Mapping(target, At(s.mem, pd)[Dir(page)].writable, false)) else None)
            <==> HoldsByChance(s.mem, pd, NewTable(s), page, target)
  {
    if forall q: Frame :: Dir(q) == Dir(page) ==>
         ThroughNew(s, pd, page, q) ==
         if q == page then Some(Mapping(target, At(s.mem, pd)[Dir(page)].writable, false)) else None {
      assert ThroughNew(s, pd, page, page).Some?;
      forall i: nat | i < ENTRIES && i != Idx(page)
        ensures !At(s.mem, NewTable(s))[i].present
      {
        var q: Frame := page - Idx(page) + i;
        assert Dir(q) == Dir(page) && Idx(q) == i;
        assert ThroughNew(s, pd, page, q) == None;
      }
    } else {
      var q: Frame :| Dir(q) == Dir(page) &&
        ThroughNew(s, pd, page, q) !=
        if q == page then Some(Mapping(target, At(s.mem, pd)[Dir(page)].writable, false)) else None;
      if q != page {
        assert Idx(q) != Idx(page);
      }
    }
  }

  /**
   * With the table missing, exactly when something answers there and the new table, never cleared, is right by chance.
   */
  lemma MissingExactly(s: Vm, pd: Frame, page: Frame, target: Frame)
    requires Asks(s, pd, page) && !At(s.mem, pd)[Dir(page)].present && TableFor(s, pd, page) < KERNEL_PAGE
    ensures MapsViaUpdate(s, pd, page, target) <==>
            && Walk(s.mem, pd, NewTable(s)).Some?
            && HoldsByChance(s.mem, pd, NewTable(s), page, target)
  {
    Astray(s, pd, page, target);
    var t := NewTable(s);
    var w := Walk(s.mem, pd, t);
    if w.Some? {
      var m := Overwritten(s, pd, page, target, w.value.page);
      forall q: Frame
        ensures Walk(m, pd, q) == if Dir(q) == Dir(page) then ThroughNew(s, pd, page, q) else Walk(s.mem, pd, q)
        ensures Updated(s.mem, pd, page, target, 1, q) ==
                if q == page then Some(Mapping(target, At(s.mem, pd)[Dir(page)].writable, false))
                  else Walk(s.mem, pd, q)
      {
        NewTableWalk(s, m, pd, page, target, w.value.page, q);
        UpdatedOnce(s.mem, pd, page, target, q);
      }
      ChanceDecides(s, pd, page, target);
    }
  }

  // ------------------------------------------------------------------
  // While a user task runs
  // ------------------------------------------------------------------

  /** The directory maps no user page, like one that `task_create` has made and nothing has been mapped into. */
  predicate NoUserPages(m: Memory, loaded: Frame) {
    forall i: nat :: i < KERNEL_DIR ==> !At(m, loaded)[i].present
  }

  lemma UserDirectoryHasNone(m: Memory, loaded: Frame, pse: bool)
    ensures NoUserPages(UserDirectory(m, loaded, pse), loaded)
  {
    MapKernelMaps(InitTable(m, loaded), loaded, pse);
  }

  /**
   * A task switch loads such a directory, while mappings still go into the kernel's: nothing answers at the table's
   * address then, and every mapping faults.
   */
  lemma FaultsUnderUserDirectory(s: Vm, loaded: Frame, pd: Frame, page: Frame, target: Frame)
    requires s.frames.max <= BITMAP_FRAMES && NoUserPages(s.mem, loaded) && TableFor(s, pd, page) < KERNEL_PAGE
    ensures !Reached(s.mem, loaded, TableFor(s, pd, page)) && MapPageVia(s, loaded, pd, page, target) == None
  {
    ReachedThroughout(s.mem, loaded, TableFor(s, pd, page), 0);
  }

  // ------------------------------------------------------------------
  // After vmm_init
  // ------------------------------------------------------------------

  /** Where the table would be, nothing is mapped. */
  lemma NothingThere(m: Memory, f: Frames, pd: Frame, pse: bool, page: Frame)
    requires f.max <= BITMAP_FRAMES && Allocated(f) < KERNEL_PAGE
    ensures Walk(KernelDirectory(m, pd, pse), pd, TableFor(Vm(KernelDirectory(m, pd, pse), f), pd, page)) == None
  {
    var r := KernelDirectory(m, pd, pse);
    KernelDirectoryEmpty(m, pd, pse);
    EmptyLowHalf(m, pd, pse);
    if Dir(page) >= KERNEL_DIR && pse {
      assert At(r, pd)[Dir(page)] == KernelEntry(At(r, pd)[Dir(page)], Dir(page));
    }
  }

  /**
   * Once `vmm_init` has loaded its directory, no table is reached at its physical address, and the first mapping of any
   * page faults, as long as the managed memory lies below 3 GB.
   */
  lemma FirstMapFaults(s: Vm, pse: bool, f: Frames, page: Frame, target: Frame)
    requires s.frames.max <= BITMAP_FRAMES && f.max <= BITMAP_FRAMES && Allocated(f) < KERNEL_PAGE
    ensures var r, pd := Vm(Boot(s, pse).mem, f), NewTable(s);
            && !Reached(r.mem, pd, TableFor(r, pd, page))
            && MapPageVia(r, pd, pd, page, target) == None
  {
    var r, pd := Vm(Boot(s, pse).mem, f), NewTable(s);
    NothingThere(s.mem, f, pd, pse, page);
    ReachedThroughout(r.mem, pd, TableFor(r, pd, page), 0);
  }

  /** So the first turn of `vmm_alloc_pages` faults, whatever page is asked for. */
  lemma FirstAllocFaults(s: Vm, pse: bool, page: Frame)
    requires Consistent(s.frames) && s.frames.used == {} && 0 < s.frames.base
    requires HEAP_PAGES + 1 <= Scanned(s.frames.max) && s.frames.base + s.frames.max <= KERNEL_PAGE
    ensures var b := Boot(s, pse); var pd, r := NewTable(s), b.(frames := Alloc(b.frames));
            MapPageVia(r, pd, pd, page, Allocated(b.frames)) == None
  {
    var b := Boot(s, pse);
    BootFrames(s.frames);
    var f := Alloc(b.frames);
    AllocBelow(b.frames);
    AllocBelow(f);
    FirstMapFaults(s, pse, f, page, Allocated(b.frames));
  }

  lemma AllocBelow(f: Frames)
    requires Consistent(f) && 0 < f.base && f.base + f.max <= KERNEL_PAGE
    ensures Consistent(Alloc(f)) && Allocated(f) < KERNEL_PAGE
  {
    if Available(f) {
      AllocTakesLowest(f);
    } else {
      AllocExhausted(f);
    }
  }
}
