/** `paging_map` over a range of pages: a map update, and where it is not one. */
module PageRanges {
  import opened Words
  import opened Pmm
  import opened Paging

  // ------------------------------------------------------------------
  // Ranges of pages
  // ------------------------------------------------------------------

  /** Directory entries the `n` pages from `page` fall under. */
  function Dirs(page: Frame, n: nat): (r: set<nat>)
    ensures forall d :: d in r ==> d < ENTRIES
  {
    if n == 0 then {} else Dirs(page, n - 1) + {Dir(Plus(page, n - 1))}
  }

  ghost function Present(m: Memory, pd: Frame): set<nat> {
    set i: nat | 0 <= i < ENTRIES && At(m, pd)[i].present
  }

  /** Frames the PMM can still hand out. */
  ghost function FreeSet(s: Frames): set<nat> {
    set f: nat | 0 <= f < Scanned(s.max) && f !in s.used
  }

  lemma FreeSetAvailable(s: Frames)
    ensures Available(s) <==> FreeSet(s) != {}
  {
    if Available(s) {
      assert Lowest(s) in FreeSet(s);
    } else {
      assert forall f: nat :: f < Scanned(s.max) ==> f in s.used;
    }
  }

  lemma AllocShrinksFreeSet(s: Frames)
    requires Consistent(s) && Available(s)
    ensures FreeSet(Alloc(s)) == FreeSet(s) - {Lowest(s)}
    ensures |FreeSet(Alloc(s))| == |FreeSet(s)| - 1
  {
    AllocTakesLowest(s);
  }

  /** The directory entries of the range that have no table yet: each will cost a frame. */
  ghost function Missing(m: Memory, pd: Frame, page: Frame, n: nat): set<nat> {
    Dirs(page, n) - Present(m, pd)
  }

  /** What a caller of `paging_map` has to see to: no large page in the range, and a frame for each missing table. */
  ghost predicate CanMap(s: Vm, pd: Frame, page: Frame, n: nat) {
    && WellFormed(s, pd)
    && n <= PAGES
    && (forall d :: d in Dirs(page, n) ==> !At(s.mem, pd)[d].large)
    && |Missing(s.mem, pd, page, n)| <= |FreeSet(s.frames)|
  }

  /** The two directories agree on everything a present entry says and on the size bit of every entry. */
  ghost predicate Extends(before: Memory, after: Memory, pd: Frame) {
    && (forall i: nat :: i < ENTRIES && At(before, pd)[i].present ==> At(after, pd)[i] == At(before, pd)[i])
    && (forall i: nat :: i < ENTRIES ==>
          && At(after, pd)[i].large == At(before, pd)[i].large
          && At(after, pd)[i].writable == At(before, pd)[i].writable)
  }

  /** Loop invariant of `paging_map`: tables appear exactly where they were missing, each at the cost of one frame. */
  ghost predicate DirectoryAfter(s: Vm, r: Vm, pd: Frame, page: Frame, n: nat) {
    && WellFormed(r, pd)
    && Extends(s.mem, r.mem, pd)
    && Present(r.mem, pd) == Present(s.mem, pd) + Dirs(page, n)
    && r.frames.count == s.frames.count + |Missing(s.mem, pd, page, n)|
    && |FreeSet(r.frames)| == |FreeSet(s.frames)| - |Missing(s.mem, pd, page, n)|
    && s.frames.used <= r.frames.used
  }

  /** The states the loop of `paging_map` goes through. */
  ghost predicate IsRun(s: Vm, run: seq<Vm>, pd: Frame, page: Frame, target: Frame) {
    && 0 < |run| && run[0] == s
    && forall k: nat {:trigger run[k + 1]} :: k < |run| - 1 ==> IsTurn(run[k], run[k + 1], pd, page, target, k)
  }

  ghost predicate IsTurn(t: Vm, r: Vm, pd: Frame, page: Frame, target: Frame, k: nat) {
    t.frames.max <= BITMAP_FRAMES && r == MapPage(t, pd, Plus(page, k), Plus(target, k))
  }

  lemma TurnOf(s: Vm, t: Vm, r: Vm, pd: Frame, page: Frame, target: Frame, k: nat)
    requires s.frames.max <= BITMAP_FRAMES
    requires t == MapPages(s, pd, page, target, k) && r == MapPages(s, pd, page, target, k + 1)
    ensures IsTurn(t, r, pd, page, target, k)
  {
  }

  lemma StatesAreRun(s: Vm, run: seq<Vm>, pd: Frame, page: Frame, target: Frame)
    requires s.frames.max <= BITMAP_FRAMES && 0 < |run| && run[0] == s
    requires forall k: nat :: k < |run| ==> run[k] == MapPages(s, pd, page, target, k)
    ensures IsRun(s, run, pd, page, target)
  {
    forall k: nat | k < |run| - 1
      ensures IsTurn(run[k], run[k + 1], pd, page, target, k)
    {
      TurnOf(s, run[k], run[k + 1], pd, page, target, k);
    }
  }

  lemma BeforeTurns(s: Vm, pd: Frame, page: Frame, target: Frame)
    requires s.frames.max <= BITMAP_FRAMES
    ensures MapPages(s, pd, page, target, 0) == s
  {
  }

  lemma RunOf(s: Vm, pd: Frame, page: Frame, target: Frame, n: nat) returns (run: seq<Vm>)
    requires s.frames.max <= BITMAP_FRAMES
    ensures IsRun(s, run, pd, page, target) && |run| == n + 1 && run[n] == MapPages(s, pd, page, target, n)
  {
    run := seq(n + 1, k requires 0 <= k => MapPages(s, pd, page, target, k));
    BeforeTurns(s, pd, page, target);
    StatesAreRun(s, run, pd, page, target);
  }

  /** `paging_map` adds a table for each directory entry of the range that had none, at the cost of one frame each. */
  lemma MapPagesDirectory(s: Vm, pd: Frame, page: Frame, target: Frame, n: nat, r: Vm)
    requires CanMap(s, pd, page, n) && r == MapPages(s, pd, page, target, n)
    ensures DirectoryAfter(s, r, pd, page, n)
  {
    var run := RunOf(s, pd, page, target, n);
    DirectoryAlong(s, run, pd, page, target, n, n);
  }

  lemma {:induction false} DirectoryAlong(s: Vm, run: seq<Vm>, pd: Frame, page: Frame, target: Frame, n: nat, k: nat)
    requires IsRun(s, run, pd, page, target) && k <= n < |run| && CanMap(s, pd, page, n)
    ensures DirectoryAfter(s, run[k], pd, page, k)
    decreases k
  {
    hide *;
    if k == 0 {
      CanMapPrefix(s, pd, page, n, 0);
      DirectoryAtStart(s, run, pd, page, target);
    } else {
      DirectoryAlong(s, run, pd, page, target, n, k - 1);
      DirectoryTurn(s, run, pd, page, target, n, k - 1);
    }
  }

  lemma DirectoryAtStart(s: Vm, run: seq<Vm>, pd: Frame, page: Frame, target: Frame)
    requires IsRun(s, run, pd, page, target) && CanMap(s, pd, page, 0)
    ensures DirectoryAfter(s, run[0], pd, page, 0)
  {
    MapNone(s, pd, page);
  }

  lemma DirectoryTurn(s: Vm, run: seq<Vm>, pd: Frame, page: Frame, target: Frame, n: nat, k: nat)
    requires IsRun(s, run, pd, page, target) && k < n < |run| && CanMap(s, pd, page, n)
    requires DirectoryAfter(s, run[k], pd, page, k)
    ensures DirectoryAfter(s, run[k + 1], pd, page, k + 1)
  {
    hide MapPage, DirectoryAfter, CanMap, Plus;
    CanMapPrefix(s, pd, page, n, k + 1);
    assert IsTurn(run[k], run[k + 1], pd, page, target, k);
    MapNext(s, run[k], run[k + 1], pd, page, k + 1, Plus(target, k));
  }

  lemma {:induction false} CanMapPrefix(s: Vm, pd: Frame, page: Frame, n: nat, k: nat)
    requires k <= n && CanMap(s, pd, page, n)
    ensures CanMap(s, pd, page, k)
    decreases n
  {
    hide *;
    if k < n {
      CanMapFewer(s, pd, page, n);
      CanMapPrefix(s, pd, page, n - 1, k);
    }
  }

  lemma MapNone(s: Vm, pd: Frame, page: Frame)
    requires WellFormed(s, pd)
    ensures DirectoryAfter(s, s, pd, page, 0)
  {
    assert Missing(s.mem, pd, page, 0) == {};
  }

  lemma CanMapFewer(s: Vm, pd: Frame, page: Frame, n: nat)
    requires 0 < n && CanMap(s, pd, page, n)
    ensures CanMap(s, pd, page, n - 1)
  {
    MissingStep(s.mem, pd, page, n);
  }

  /**
   * Before the last turn of the loop the entry concerned is usable: small, and present or with a frame left for its
   * table.
   */
  lemma NextIsReady(s: Vm, r: Vm, pd: Frame, page: Frame, n: nat)
    requires 0 < n && CanMap(s, pd, page, n) && DirectoryAfter(s, r, pd, page, n - 1)
    ensures WellFormed(r, pd) && Ready(s, r, pd, Plus(page, n - 1))
  {
    var d := Dir(Plus(page, n - 1));
    MissingStep(s.mem, pd, page, n);
    assert d in Dirs(page, n);
    assert d in Present(r.mem, pd) <==> d in Present(s.mem, pd) + Dirs(page, n - 1);
    FreeSetAvailable(r.frames);
  }

  ghost predicate Ready(s: Vm, r: Vm, pd: Frame, page: Frame) {
    var e := At(r.mem, pd)[Dir(page)];
    && !e.large
    && (e.present || Available(r.frames))
    && e.writable == At(s.mem, pd)[Dir(page)].writable
  }

  lemma MapNext(s: Vm, r: Vm, r': Vm, pd: Frame, page: Frame, n: nat, target: Frame)
    requires 0 < n && CanMap(s, pd, page, n) && DirectoryAfter(s, r, pd, page, n - 1)
    requires r' == MapPage(r, pd, Plus(page, n - 1), target)
    ensures DirectoryAfter(s, r', pd, page, n)
  {
    NextIsReady(s, r, pd, page, n);
    MapPageStep(r, pd, Plus(page, n - 1), target);
    MissingStep(s.mem, pd, page, n);
    assert Present(r'.mem, pd) == Present(s.mem, pd) + Dirs(page, n);
    ExtendsTransitive(s.mem, r.mem, r'.mem, pd);
  }

  lemma ExtendsTransitive(a: Memory, b: Memory, c: Memory, pd: Frame)
    requires Extends(a, b, pd) && Extends(b, c, pd)
    ensures Extends(a, c, pd)
  {
  }

  lemma MissingStep(m: Memory, pd: Frame, page: Frame, n: nat)
    requires 0 < n
    ensures var d := Dir(Plus(page, n - 1));
            var isNew := d !in Present(m, pd) + Dirs(page, n - 1);
            && |Missing(m, pd, page, n)| == |Missing(m, pd, page, n - 1)| + (if isNew then 1 else 0)
            && Dirs(page, n - 1) <= Dirs(page, n)
  {
    var d := Dir(Plus(page, n - 1));
    if d in Present(m, pd) + Dirs(page, n - 1) {
      assert Missing(m, pd, page, n) == Missing(m, pd, page, n - 1);
    } else {
      assert Missing(m, pd, page, n) == Missing(m, pd, page, n - 1) + {d};
    }
  }

  lemma MapPageStep(s: Vm, pd: Frame, page: Frame, target: Frame)
    requires WellFormed(s, pd)
    requires !At(s.mem, pd)[Dir(page)].large
    requires At(s.mem, pd)[Dir(page)].present || Available(s.frames)
    ensures var r := MapPage(s, pd, page, target);
            var cost := if Dir(page) in Present(s.mem, pd) then 0 else 1;
            && WellFormed(r, pd)
            && Extends(s.mem, r.mem, pd)
            && Present(r.mem, pd) == Present(s.mem, pd) + {Dir(page)}
            && r.frames.count == s.frames.count + cost
            && |FreeSet(r.frames)| == |FreeSet(s.frames)| - cost
            && s.frames.used <= r.frames.used
  {
    var r := MapPage(s, pd, page, target);
    MapPageWellFormed(s, pd, page, target);
    forall i: nat | i < ENTRIES
      ensures var e := At(s.mem, pd)[i];
              At(r.mem, pd)[i] == if i == Dir(page) && !e.present then PointAt(e, NewTable(s)) else e
    {
      MapPageDirectory(s, pd, page, target, i);
    }
    if !At(s.mem, pd)[Dir(page)].present {
      AllocTakesLowest(s.frames);
      AllocShrinksFreeSet(s.frames);
    }
  }

  /** Ranges one after the other are mapped like the whole, in any state. */
  lemma {:induction false} MapPagesSplit(s: Vm, pd: Frame, page: Frame, target: Frame, n: nat, k: nat)
    requires s.frames.max <= BITMAP_FRAMES
    ensures MapPages(s, pd, page, target, n + k) ==
            MapPages(MapPages(s, pd, page, target, n), pd, Plus(page, n), Plus(target, n), k)
  {
    hide *;
    var t := MapPages(s, pd, page, target, n);
    if k == 0 {
      BeforeTurns(t, pd, Plus(page, n), Plus(target, n));
    } else {
      var j: nat := k - 1;
      MapPagesSplit(s, pd, page, target, n, j);
      OneTurnMore(s, pd, page, target, n + j, n + k);
      OneTurnMore(t, pd, Plus(page, n), Plus(target, n), j, k);
      PlusPlus(page, n, j);
      PlusPlus(target, n, j);
    }
  }

  lemma OneTurnMore(s: Vm, pd: Frame, page: Frame, target: Frame, j: nat, k: nat)
    requires s.frames.max <= BITMAP_FRAMES && k == j + 1
    ensures MapPages(s, pd, page, target, k) ==
            MapPage(MapPages(s, pd, page, target, j), pd, Plus(page, j), Plus(target, j))
  {
    hide MapPage, Plus;
  }

  lemma PlusPlus(page: Frame, n: nat, k: nat)
    ensures Plus(Plus(page, n), k) == Plus(page, n + k)
  {
  }

  /** How far `q` lies past `page`, going round at 4 GB. */
  function Offset(page: Frame, q: Frame): nat {
    (q - page) % 0x10_0000
  }

  lemma PlusOffset(page: Frame, q: Frame, k: nat)
    requires k < PAGES
    ensures q == Plus(page, k) <==> Offset(page, q) == k
  {
  }

  /** Where `q` resolves once `n` pages from `page` have been mapped. */
  function Updated(m: Memory, pd: Frame, page: Frame, target: Frame, n: nat, q: Frame): Option<Mapping> {
    if Offset(page, q) < n
    then Some(Mapping(Plus(target, Offset(page, q)), At(m, pd)[Dir(q)].writable, false))
    else Walk(m, pd, q)
  }

  /**
   * `paging_map` is a map update: page + k resolves to target + k, kernel-only, and every other page
   * of the address space resolves as before, whether or not the tables existed.
   */
  lemma MapPagesWalk(s: Vm, pd: Frame, page: Frame, target: Frame, n: nat, q: Frame)
    requires CanMap(s, pd, page, n)
    ensures Walk(MapPages(s, pd, page, target, n).mem, pd, q) == Updated(s.mem, pd, page, target, n, q)
  {
    var run := RunOf(s, pd, page, target, n);
    WalkAlong(s, run, pd, page, target, n, n, q);
  }

  lemma {:induction false} WalkAlong(s: Vm, run: seq<Vm>, pd: Frame, page: Frame, target: Frame, n: nat, k: nat,
                                     q: Frame)
    requires IsRun(s, run, pd, page, target) && k <= n < |run| && CanMap(s, pd, page, n)
    ensures Walk(run[k].mem, pd, q) == Updated(s.mem, pd, page, target, k, q)
    decreases k
  {
    hide *;
    if k == 0 {
      WalkAtStart(s, run, pd, page, target, q);
    } else {
      WalkAlong(s, run, pd, page, target, n, k - 1, q);
      WalkTurn(s, run, pd, page, target, n, k - 1, q);
    }
  }

  lemma WalkAtStart(s: Vm, run: seq<Vm>, pd: Frame, page: Frame, target: Frame, q: Frame)
    requires IsRun(s, run, pd, page, target)
    ensures Walk(run[0].mem, pd, q) == Updated(s.mem, pd, page, target, 0, q)
  {
  }

  lemma WalkTurn(s: Vm, run: seq<Vm>, pd: Frame, page: Frame, target: Frame, n: nat, k: nat, q: Frame)
    requires IsRun(s, run, pd, page, target) && k < n < |run| && CanMap(s, pd, page, n)
    requires Walk(run[k].mem, pd, q) == Updated(s.mem, pd, page, target, k, q)
    ensures Walk(run[k + 1].mem, pd, q) == Updated(s.mem, pd, page, target, k + 1, q)
  {
    hide MapPage, CanMap, Walk, Updated, Ready, WellFormed, Extends, Plus;
    ReadyForTurn(s, run, pd, page, target, n, k);
    WalkNext(s, run[k], pd, page, target, k, q, run[k + 1]);
  }

  /** Before each turn of a run the directory is as the turns so far have left it, and ready for the next. */
  lemma ReadyForTurn(s: Vm, run: seq<Vm>, pd: Frame, page: Frame, target: Frame, n: nat, k: nat)
    requires IsRun(s, run, pd, page, target) && k < n < |run| && CanMap(s, pd, page, n)
    ensures k < PAGES && DirectoryAfter(s, run[k], pd, page, k) && Ready(s, run[k], pd, Plus(page, k))
    ensures IsTurn(run[k], run[k + 1], pd, page, target, k)
  {
    hide MapPage, DirectoryAfter, WellFormed, Ready, Missing, Plus;
    assert IsTurn(run[k], run[k + 1], pd, page, target, k);
    CanMapPrefix(s, pd, page, n, k + 1);
    DirectoryAlong(s, run, pd, page, target, n, k);
    NextIsReady(s, run[k], pd, page, k + 1);
  }

  lemma WalkNext(s: Vm, r: Vm, pd: Frame, page: Frame, target: Frame, k: nat, q: Frame, r': Vm)
    requires k < PAGES
    requires WellFormed(r, pd) && Ready(s, r, pd, Plus(page, k))
    requires Walk(r.mem, pd, q) == Updated(s.mem, pd, page, target, k, q)
    requires r' == MapPage(r, pd, Plus(page, k), Plus(target, k))
    ensures Walk(r'.mem, pd, q) == Updated(s.mem, pd, page, target, k + 1, q)
  {
    MapPageWalk(r, pd, Plus(page, k), Plus(target, k), q);
    UpdatedStep(s.mem, pd, page, target, k + 1, q);
  }

  lemma UpdatedStep(m: Memory, pd: Frame, page: Frame, target: Frame, n: nat, q: Frame)
    requires 0 < n <= PAGES
    ensures Updated(m, pd, page, target, n, q) ==
            if q == Plus(page, n - 1) then Some(Mapping(Plus(target, n - 1), At(m, pd)[Dir(q)].writable, false))
            else Updated(m, pd, page, target, n - 1, q)
  {
    PlusOffset(page, q, n - 1);
  }

  /** The tables that have been added since are frames that were not held then. */
  ghost predicate OnlyFreshTables(s: Vm, r: Vm, pd: Frame) {
    forall i: nat {:trigger HasTable(r.mem, pd, i)} :: i < ENTRIES && HasTable(r.mem, pd, i) ==>
      || (HasTable(s.mem, pd, i) && At(s.mem, pd)[i].address == At(r.mem, pd)[i].address)
      || !Held(s.frames, At(r.mem, pd)[i].address)
  }

  /** What was held and neither the directory nor a table keeps its contents. */
  ghost predicate KeepsData(s: Vm, r: Vm, pd: Frame) {
    forall f: Frame :: Held(s.frames, f) && f != pd && !IsTable(s.mem, pd, f) ==> At(r.mem, f) == At(s.mem, f)
  }

  /** Nowhere does a field change that `paging_map` does not write. */
  ghost predicate KeepsRest(s: Vm, r: Vm) {
    forall f: int, i: nat {:trigger At(r.mem, f)[i]} :: i < ENTRIES ==> SameRest(At(s.mem, f)[i], At(r.mem, f)[i])
  }

  ghost predicate Keeps(s: Vm, r: Vm, pd: Frame) {
    r.frames.base == s.frames.base && OnlyFreshTables(s, r, pd) && KeepsData(s, r, pd) && KeepsRest(s, r)
  }

  lemma MapPageKeeps(s: Vm, r: Vm, r': Vm, pd: Frame, page: Frame, target: Frame)
    requires WellFormed(r, pd) && !At(r.mem, pd)[Dir(page)].large && s.frames.used <= r.frames.used
    requires At(r.mem, pd)[Dir(page)].present || Available(r.frames)
    requires r' == MapPage(r, pd, page, target)
    requires Keeps(s, r, pd)
    ensures Keeps(s, r', pd)
  {
    if !At(r.mem, pd)[Dir(page)].present {
      NewTableIsFresh(r);
    }
    forall i: nat | i < ENTRIES && HasTable(r'.mem, pd, i)
      ensures || (HasTable(s.mem, pd, i) && At(s.mem, pd)[i].address == At(r'.mem, pd)[i].address)
              || !Held(s.frames, At(r'.mem, pd)[i].address)
    {
      MapPageDirectory(r, pd, page, target, i);
      assert HasTable(r.mem, pd, i) || At(r'.mem, pd)[i].address == NewTable(r);
    }
    forall f: Frame | Held(s.frames, f) && f != pd && !IsTable(s.mem, pd, f)
      ensures At(r'.mem, f) == At(s.mem, f)
    {
      DataIsNoTable(s, r, pd, f);
      MapPageFrame(r, pd, page, target, f);
    }
    forall f: int, i: nat | i < ENTRIES
      ensures SameRest(At(s.mem, f)[i], At(r'.mem, f)[i])
    {
      MapPageEntries(r, pd, page, target, f, i);
    }
  }

  lemma DataIsNoTable(s: Vm, r: Vm, pd: Frame, f: Frame)
    requires OnlyFreshTables(s, r, pd) && Held(s.frames, f) && !IsTable(s.mem, pd, f)
    ensures !IsTable(r.mem, pd, f)
  {
  }

  /**
   * Over the whole range nothing else happens: frames held for anything but the directory and its tables keep their
   * contents, and no bit changes anywhere that `paging_map` does not write.
   */
  lemma MapPagesKeeps(s: Vm, pd: Frame, page: Frame, target: Frame, n: nat, r: Vm)
    requires CanMap(s, pd, page, n) && r == MapPages(s, pd, page, target, n)
    ensures Keeps(s, r, pd)
  {
    var run := RunOf(s, pd, page, target, n);
    KeepsAlong(s, run, pd, page, target, n, n);
  }

  lemma {:induction false} KeepsAlong(s: Vm, run: seq<Vm>, pd: Frame, page: Frame, target: Frame, n: nat, k: nat)
    requires IsRun(s, run, pd, page, target) && k <= n < |run| && CanMap(s, pd, page, n)
    ensures Keeps(s, run[k], pd)
    decreases k
  {
    hide *;
    if k == 0 {
      KeepsAtStart(s, run, pd, page, target);
    } else {
      KeepsAlong(s, run, pd, page, target, n, k - 1);
      KeepsTurn(s, run, pd, page, target, n, k - 1);
    }
  }

  lemma KeepsAtStart(s: Vm, run: seq<Vm>, pd: Frame, page: Frame, target: Frame)
    requires IsRun(s, run, pd, page, target)
    ensures Keeps(s, run[0], pd)
  {
  }

  lemma KeepsTurn(s: Vm, run: seq<Vm>, pd: Frame, page: Frame, target: Frame, n: nat, k: nat)
    requires IsRun(s, run, pd, page, target) && k < n < |run| && CanMap(s, pd, page, n) && Keeps(s, run[k], pd)
    ensures Keeps(s, run[k + 1], pd)
  {
    hide MapPage, CanMap, Keeps, WellFormed, Extends, Plus;
    ReadyForTurn(s, run, pd, page, target, n, k);
    MapPageKeeps(s, run[k], run[k + 1], pd, Plus(page, k), Plus(target, k));
  }

  /** The entry `e'` of page `q`'s table once `n` pages from `page` have been mapped; it was `e` before. */
  predicate EntryUpdated(e: Entry, e': Entry, page: Frame, target: Frame, n: nat, q: Frame) {
    if Offset(page, q) < n
    then e' == Entry(true, true, false, e.flags, e.large, e.available, Plus(target, Offset(page, q)))
    else e' == e
  }

  lemma EntryNext(e: Entry, e': Entry, e'': Entry, page: Frame, target: Frame, k: nat, q: Frame)
    requires k < PAGES && EntryUpdated(e, e', page, target, k, q)
    requires if q == Plus(page, k)
             then e'' == Entry(true, true, false, e'.flags, e'.large, e'.available, Plus(target, k))
             else e'' == e'
    ensures EntryUpdated(e, e'', page, target, k + 1, q)
  {
    PlusOffset(page, q, k);
  }

  /** The entries of a table that was there are rewritten for the pages of the range, and no others. */
  lemma MapPagesEntries(s: Vm, pd: Frame, page: Frame, target: Frame, n: nat, q: Frame, r: Vm)
    requires CanMap(s, pd, page, n) && r == MapPages(s, pd, page, target, n) && HasTable(s.mem, pd, Dir(q))
    ensures var t := At(s.mem, pd)[Dir(q)].address;
            EntryUpdated(At(s.mem, t)[Idx(q)], At(r.mem, t)[Idx(q)], page, target, n, q)
  {
    var run := RunOf(s, pd, page, target, n);
    EntryAlong(s, run, pd, page, target, n, n, q, At(s.mem, pd)[Dir(q)].address);
  }

  lemma {:induction false} EntryAlong(s: Vm, run: seq<Vm>, pd: Frame, page: Frame, target: Frame, n: nat, k: nat,
                                      q: Frame, t: Frame)
    requires IsRun(s, run, pd, page, target) && k <= n < |run| && CanMap(s, pd, page, n)
    requires HasTable(s.mem, pd, Dir(q)) && t == At(s.mem, pd)[Dir(q)].address
    ensures EntryUpdated(At(s.mem, t)[Idx(q)], At(run[k].mem, t)[Idx(q)], page, target, k, q)
    decreases k
  {
    hide *;
    if k == 0 {
      EntryAtStart(s, run, pd, page, target, q, t);
    } else {
      EntryAlong(s, run, pd, page, target, n, k - 1, q, t);
      EntryAtTurn(s, run, pd, page, target, n, k - 1, q, t);
    }
  }

  lemma EntryAtStart(s: Vm, run: seq<Vm>, pd: Frame, page: Frame, target: Frame, q: Frame, t: Frame)
    requires IsRun(s, run, pd, page, target)
    ensures EntryUpdated(At(s.mem, t)[Idx(q)], At(run[0].mem, t)[Idx(q)], page, target, 0, q)
  {
  }

  lemma EntryAtTurn(s: Vm, run: seq<Vm>, pd: Frame, page: Frame, target: Frame, n: nat, k: nat, q: Frame, t: Frame)
    requires IsRun(s, run, pd, page, target) && k < n < |run| && CanMap(s, pd, page, n)
    requires HasTable(s.mem, pd, Dir(q)) && t == At(s.mem, pd)[Dir(q)].address
    requires EntryUpdated(At(s.mem, t)[Idx(q)], At(run[k].mem, t)[Idx(q)], page, target, k, q)
    ensures EntryUpdated(At(s.mem, t)[Idx(q)], At(run[k + 1].mem, t)[Idx(q)], page, target, k + 1, q)
  {
    hide MapPage, CanMap, WellFormed, Plus, EntryUpdated;
    ReadyForTurn(s, run, pd, page, target, n, k);
    EntryTurn(run[k], run[k + 1], pd, Plus(page, k), Plus(target, k), q, t);
    EntryNext(At(s.mem, t)[Idx(q)], At(run[k].mem, t)[Idx(q)], At(run[k + 1].mem, t)[Idx(q)], page, target, k, q);
  }

  lemma EntryTurn(m: Vm, r: Vm, pd: Frame, page: Frame, target: Frame, q: Frame, t: Frame)
    requires WellFormed(m, pd) && !At(m.mem, pd)[Dir(page)].large && r == MapPage(m, pd, page, target)
    requires At(m.mem, pd)[Dir(page)].present || Available(m.frames)
    requires HasTable(m.mem, pd, Dir(q)) && At(m.mem, pd)[Dir(q)].address == t
    ensures var e, e' := At(m.mem, t)[Idx(q)], At(r.mem, t)[Idx(q)];
            if q == page then e' == Entry(true, true, false, e.flags, e.large, e.available, target) else e' == e
  {
    if !At(m.mem, pd)[Dir(page)].present {
      NewTableIsFresh(m);
    } else {
      assert HasTable(m.mem, pd, Dir(page));
    }
    MapPageEntries(m, pd, page, target, t, Idx(q));
    if Dir(q) == Dir(page) && q != page {
      assert Idx(q) != Idx(page);
    }
  }

  /** Stated on addresses: byte v of the range resolves to byte v of the target, all other addresses as before. */
  lemma MapTranslates(s: Vm, pd: Frame, page: Frame, target: Frame, n: nat, v: uint32)
    requires CanMap(s, pd, page, n)
    ensures Translate(MapPages(s, pd, page, target, n).mem, pd, v) ==
            if Offset(page, PageOf(v)) < n
            then Some(Plus(target, Offset(page, PageOf(v))) * 4096 + v % 4096)
            else Translate(s.mem, pd, v)
  {
    MapPagesWalk(s, pd, page, target, n, PageOf(v));
    TranslateUpdated(s.mem, MapPages(s, pd, page, target, n).mem, pd, page, target, n, v);
  }

  lemma TranslateUpdated(m: Memory, m': Memory, pd: Frame, page: Frame, target: Frame, n: nat, v: uint32)
    requires Walk(m', pd, PageOf(v)) == Updated(m, pd, page, target, n, PageOf(v))
    ensures Translate(m', pd, v) ==
            if Offset(page, PageOf(v)) < n
            then Some(Plus(target, Offset(page, PageOf(v))) * 4096 + v % 4096)
            else Translate(m, pd, v)
  {
  }

  // ------------------------------------------------------------------
  // Where the size bit is set
  // ------------------------------------------------------------------

  lemma SizeBitSpoilsFreshTable(s: Vm, pd: Frame, page: Frame, target: Frame) returns (q: Frame)
    requires WellFormed(s, pd) && Available(s.frames)
    requires !At(s.mem, pd)[Dir(page)].present && At(s.mem, pd)[Dir(page)].large
    ensures Walk(MapPage(s, pd, page, target).mem, pd, q) != Updated(s.mem, pd, page, target, 1, q)
  {
    var m := MapPage(s, pd, page, target).mem;
    NewTableIsFresh(s);
    assert At(m, pd)[Dir(page)] == PointAt(At(s.mem, pd)[Dir(page)], NewTable(s));
    if NewTable(s) % 1024 == 0 {
      q := if Idx(page) == 0 then page + 1 else page - 1;
      assert Dir(q) == Dir(page) && Offset(page, q) != 0;
    } else {
      q := page;
    }
  }

  /**
   * `paging_map` never writes the size bit of the directory entry it fills, so on an absent entry it is a
   * map update exactly when the bit was clear: it must not map a directory that was not zeroed first.
   */
  lemma FreshTableNeedsClearSizeBit(s: Vm, pd: Frame, page: Frame, target: Frame)
    requires WellFormed(s, pd) && Available(s.frames)
    requires !At(s.mem, pd)[Dir(page)].present
    ensures (forall q: Frame :: Walk(MapPage(s, pd, page, target).mem, pd, q) == Updated(s.mem, pd, page, target, 1, q))
            <==> !At(s.mem, pd)[Dir(page)].large
  {
    if At(s.mem, pd)[Dir(page)].large {
      var q := SizeBitSpoilsFreshTable(s, pd, page, target);
    } else {
      forall q: Frame
        ensures Walk(MapPage(s, pd, page, target).mem, pd, q) == Updated(s.mem, pd, page, target, 1, q)
      {
        MapPageWalk(s, pd, page, target, q);
        UpdatedOnce(s.mem, pd, page, target, q);
      }
    }
  }

  lemma UpdatedOnce(m: Memory, pd: Frame, page: Frame, target: Frame, q: Frame)
    ensures Updated(m, pd, page, target, 1, q) ==
            if q == page then Some(Mapping(target, At(m, pd)[Dir(page)].writable, false)) else Walk(m, pd, q)
  {
  }

  /**
   * Over a present large page the request is lost: no translation changes, and the entry meant for a table
   * is written into the first frame of the large page instead.
   */
  lemma MapOverLargePageIsLost(s: Vm, pd: Frame, page: Frame, target: Frame)
    requires WellFormed(s, pd)
    requires At(s.mem, pd)[Dir(page)].present && At(s.mem, pd)[Dir(page)].large
    requires var f := At(s.mem, pd)[Dir(page)].address; f != pd && !IsTable(s.mem, pd, f)
    ensures forall q: Frame :: Walk(MapPage(s, pd, page, target).mem, pd, q) == Walk(s.mem, pd, q)
    ensures At(MapPage(s, pd, page, target).mem, At(s.mem, pd)[Dir(page)].address)[Idx(page)].address == target
  {
    forall q: Frame
      ensures Walk(MapPage(s, pd, page, target).mem, pd, q) == Walk(s.mem, pd, q)
    {
      if HasTable(s.mem, pd, Dir(q)) {
        assert IsTable(s.mem, pd, At(s.mem, pd)[Dir(q)].address);
      }
    }
  }

  /**
   * So with a present entry `paging_map` is a map update exactly when the entry has a table, or when the large page
   * already resolves the page as requested.
   */
  lemma PresentEntryNeedsTable(s: Vm, pd: Frame, page: Frame, target: Frame)
    requires WellFormed(s, pd) && At(s.mem, pd)[Dir(page)].present
    requires var e := At(s.mem, pd)[Dir(page)]; e.large ==> e.address != pd && !IsTable(s.mem, pd, e.address)
    ensures var e := At(s.mem, pd)[Dir(page)];
            (forall q: Frame :: Walk(MapPage(s, pd, page, target).mem, pd, q) == Updated(s.mem, pd, page, target, 1, q))
            <==> !e.large || Walk(s.mem, pd, page) == Some(Mapping(target, e.writable, false))
  {
    if At(s.mem, pd)[Dir(page)].large {
      MapOverLargePageIsLost(s, pd, page, target);
      UpdatedOnce(s.mem, pd, page, target, page);
      forall q: Frame
        ensures Updated(s.mem, pd, page, target, 1, q) == Walk(s.mem, pd, q) || q == page
      {
        UpdatedOnce(s.mem, pd, page, target, q);
      }
    } else {
      forall q: Frame
        ensures Walk(MapPage(s, pd, page, target).mem, pd, q) == Updated(s.mem, pd, page, target, 1, q)
      {
        MapPageWalk(s, pd, page, target, q);
        UpdatedOnce(s.mem, pd, page, target, q);
      }
    }
  }
}
