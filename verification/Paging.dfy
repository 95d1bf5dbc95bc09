/**
 * 32-bit paging, arch/x86/kernel/paging.c: two-level tables edited in physical memory, and the
 * translation those tables stand for (section 4.3 of the Intel SDM, Vol. 3A).
 */
module Paging {
  import opened Words
  import opened Pmm

  const ENTRIES := 1024

  /**
   * A directory or table entry: the two share their layout, and bit 7 (`large`) is the page-size bit of a directory
   * entry.
   */
  datatype Entry = Entry(present: bool, writable: bool, user: bool, flags: bv4, large: bool, available: bv4,
                         address: Frame)

  const ZERO_ENTRY := Entry(false, false, false, 0, false, 0, 0)

  type Table = t: seq<Entry> | |t| == ENTRIES witness seq(ENTRIES, _ => ZERO_ENTRY)

  function ZeroTable(): Table {
    seq(ENTRIES, _ => ZERO_ENTRY)
  }

  /** Physical memory, one table's worth of entries for each frame; a frame never written holds zeroes. */
  type Memory = map<int, Table>

  function At(m: Memory, frame: int): Table {
    if frame in m then m[frame] else ZeroTable()
  }

  // ------------------------------------------------------------------
  // Translation
  // ------------------------------------------------------------------

  datatype Mapping = Mapping(page: Frame, writable: bool, user: bool)

  function Dir(page: Frame): nat {
    page / 1024
  }

  function Idx(page: Frame): nat {
    page % 1024
  }

  /** The page, virtual or physical, an address lies in. */
  function PageOf(addr: uint32): Frame {
    addr / 4096
  }

  /** The frame a virtual page resolves to through directory `pd`, with the effective access rights. */
  function Walk(m: Memory, pd: Frame, page: Frame): Option<Mapping> {
    var pde := At(m, pd)[Dir(page)];
    if !pde.present then
      None
    else if pde.large then
      if pde.address % 1024 != 0 then None else Some(Mapping(pde.address + Idx(page), pde.writable, pde.user))
    else
      var pte := At(m, pde.address)[Idx(page)];
      if !pte.present then None
      else Some(Mapping(pte.address, pde.writable && pte.writable, pde.user && pte.user))
  }

  /** The physical address a virtual address resolves to. */
  function Translate(m: Memory, pd: Frame, v: uint32): Option<uint32> {
    match Walk(m, pd, PageOf(v))
    case None => None
    case Some(mapping) => Some(mapping.page * 4096 + v % 4096)
  }

  /**
   * The index macros of paging.h, a right shift by 22 or 12 and a ten-bit mask, are the quotient and remainder the walk
   * uses.
   */
  lemma IndexMacros(v: uint32, mask: nat)
    requires mask == 0x3FF
    ensures And(v / 0x40_0000, mask) == Dir(PageOf(v))
    ensures And(v / 0x1000, mask) == Idx(PageOf(v))
  {
    TenBits(v / 0x40_0000, mask);
    TenBits(v / 0x1000, mask);
    IndexArithmetic(v);
  }

  lemma IndexArithmetic(v: uint32)
    ensures v / 0x40_0000 % 1024 == PageOf(v) / 1024
  {
  }

  lemma TenBits(x: nat, mask: nat)
    requires mask == 0x3FF
    ensures And(x, mask) == x % 1024
  {
    assert Pow2(10) == 1024;
    AndLowBits(x, 10, mask);
  }

  // ------------------------------------------------------------------
  // What the code does to memory
  // ------------------------------------------------------------------

  datatype Vm = Vm(mem: Memory, frames: Frames)

  /** `paging_init_directory` and `paging_init_table` touch three bits of an entry and keep the rest. */
  function Cleared(e: Entry): Entry {
    e.(present := false, writable := true, user := false)
  }

  function ClearedTo(t: Table, n: nat): Table
    requires n <= ENTRIES
  {
    seq(ENTRIES, i requires 0 <= i < ENTRIES => if i < n then Cleared(t[i]) else t[i])
  }

  function PointAt(e: Entry, frame: Frame): Entry {
    e.(address := frame, present := true)
  }

  function MapTo(e: Entry, frame: Frame): Entry {
    e.(present := true, writable := true, user := false, address := frame)
  }

  function WriteEntry(m: Memory, frame: Frame, i: nat, e: Entry): Memory
    requires i < ENTRIES
  {
    m[frame := At(m, frame)[i := e]]
  }

  function InitTable(m: Memory, frame: Frame): Memory {
    m[frame := ClearedTo(At(m, frame), ENTRIES)]
  }

  function NewTable(s: Vm): Frame
    requires s.frames.max <= BITMAP_FRAMES
  {
    Allocated(s.frames)
  }

  /** A fresh table for directory entry `i`. */
  function WithTable(s: Vm, pd: Frame, i: nat): Vm
    requires s.frames.max <= BITMAP_FRAMES && i < ENTRIES
  {
    var m := InitTable(s.mem, NewTable(s));
    Vm(WriteEntry(m, pd, i, PointAt(At(m, pd)[i], NewTable(s))), Alloc(s.frames))
  }

  /** One turn of the loop of `paging_map`. */
  function MapPage(s: Vm, pd: Frame, page: Frame, target: Frame): (r: Vm)
    requires s.frames.max <= BITMAP_FRAMES
    ensures r.frames.max == s.frames.max && r.frames.base == s.frames.base
  {
    var pde := At(s.mem, pd)[Dir(page)];
    if pde.present then
      var pte := At(s.mem, pde.address)[Idx(page)];
      s.(mem := WriteEntry(s.mem, pde.address, Idx(page), MapTo(pte, target)))
    else
      var r := WithTable(s, pd, Dir(page));
      var pte := At(r.mem, NewTable(s))[Idx(page)];
      r.(mem := WriteEntry(r.mem, NewTable(s), Idx(page), MapTo(pte, target)))
  }

  /** Page `k` places after `page`, addresses wrapping at 4 GB. */
  function Plus(page: Frame, k: int): Frame {
    (page + k) % 0x10_0000
  }

  function MapPages(s: Vm, pd: Frame, page: Frame, target: Frame, n: nat): (r: Vm)
    requires s.frames.max <= BITMAP_FRAMES
    ensures r.frames.max == s.frames.max && r.frames.base == s.frames.base
  {
    if n == 0 then s
    else MapPage(MapPages(s, pd, page, target, n - 1), pd, Plus(page, n - 1), Plus(target, n - 1))
  }

  // ------------------------------------------------------------------
  // Well-formed directories
  // ------------------------------------------------------------------

  /** A physical frame the PMM has handed out. */
  predicate Held(s: Frames, frame: int) {
    frame - s.base in s.used
  }

  predicate HasTable(m: Memory, pd: Frame, i: nat)
    requires i < ENTRIES
  {
    At(m, pd)[i].present && !At(m, pd)[i].large
  }

  /** The directory and its tables are distinct frames, all of them held. */
  ghost predicate WellFormed(s: Vm, pd: Frame) {
    && Consistent(s.frames)
    && Held(s.frames, pd)
    && (forall i: nat {:trigger HasTable(s.mem, pd, i)} :: i < ENTRIES && HasTable(s.mem, pd, i) ==>
          Held(s.frames, At(s.mem, pd)[i].address) && At(s.mem, pd)[i].address != pd)
    && (forall i: nat, j: nat {:trigger HasTable(s.mem, pd, i), HasTable(s.mem, pd, j)} ::
          i < j < ENTRIES && HasTable(s.mem, pd, i) && HasTable(s.mem, pd, j) ==>
          At(s.mem, pd)[i].address != At(s.mem, pd)[j].address)
  }

  ghost predicate IsTable(m: Memory, pd: Frame, frame: Frame) {
    exists i: nat :: i < ENTRIES && HasTable(m, pd, i) && At(m, pd)[i].address == frame
  }

  lemma NewTableIsFresh(s: Vm)
    requires Consistent(s.frames) && Available(s.frames)
    ensures !Held(s.frames, NewTable(s))
    ensures forall f :: Held(Alloc(s.frames), f) <==> Held(s.frames, f) || f == NewTable(s)
    ensures Consistent(Alloc(s.frames))
  {
    AllocTakesLowest(s.frames);
  }

  // ------------------------------------------------------------------
  // paging_map updates the translation at one page
  // ------------------------------------------------------------------

  /** Mapping one page in a directory entry that is not a large page. */
  lemma MapPageWalk(s: Vm, pd: Frame, page: Frame, target: Frame, q: Frame)
    requires WellFormed(s, pd)
    requires !At(s.mem, pd)[Dir(page)].large
    requires At(s.mem, pd)[Dir(page)].present || Available(s.frames)
    ensures Walk(MapPage(s, pd, page, target).mem, pd, q) ==
            if q == page then Some(Mapping(target, At(s.mem, pd)[Dir(page)].writable, false)) else Walk(s.mem, pd, q)
  {
    if Dir(q) == Dir(page) && q != page {
      assert Idx(q) != Idx(page);
    }
    assert HasTable(s.mem, pd, Dir(q)) || !At(s.mem, pd)[Dir(q)].present || At(s.mem, pd)[Dir(q)].large;
    if At(s.mem, pd)[Dir(page)].present {
      assert HasTable(s.mem, pd, Dir(page));
    } else {
      NewTableIsFresh(s);
      FreshTableWalk(s, pd, page, target, q);
    }
  }

  lemma FreshTableWalk(s: Vm, pd: Frame, page: Frame, target: Frame, q: Frame)
    requires s.frames.max <= BITMAP_FRAMES && NewTable(s) != pd
    requires !At(s.mem, pd)[Dir(page)].present && !At(s.mem, pd)[Dir(page)].large
    requires Dir(q) == Dir(page) && q != page ==> Idx(q) != Idx(page)
    requires HasTable(s.mem, pd, Dir(q)) ==>
               At(s.mem, pd)[Dir(q)].address != NewTable(s) && At(s.mem, pd)[Dir(q)].address != pd
    ensures Walk(MapPage(s, pd, page, target).mem, pd, q) ==
            if q == page then Some(Mapping(target, At(s.mem, pd)[Dir(page)].writable, false)) else Walk(s.mem, pd, q)
  {
  }

  /** The directory entry of the page becomes present; every other bit of the directory keeps its value. */
  lemma MapPageDirectory(s: Vm, pd: Frame, page: Frame, target: Frame, i: nat)
    requires WellFormed(s, pd) && i < ENTRIES
    requires !At(s.mem, pd)[Dir(page)].large
    requires At(s.mem, pd)[Dir(page)].present || Available(s.frames)
    ensures var e := At(s.mem, pd)[i];
            At(MapPage(s, pd, page, target).mem, pd)[i] ==
            if i == Dir(page) && !e.present then PointAt(e, NewTable(s)) else e
  {
    if At(s.mem, pd)[Dir(page)].present {
      assert HasTable(s.mem, pd, Dir(page));
    } else {
      NewTableIsFresh(s);
    }
  }

  lemma MapPageWellFormed(s: Vm, pd: Frame, page: Frame, target: Frame)
    requires WellFormed(s, pd)
    requires !At(s.mem, pd)[Dir(page)].large
    requires At(s.mem, pd)[Dir(page)].present || Available(s.frames)
    ensures WellFormed(MapPage(s, pd, page, target), pd)
  {
    var r := MapPage(s, pd, page, target);
    forall i: nat | i < ENTRIES
      ensures var e := At(s.mem, pd)[i];
              At(r.mem, pd)[i] == if i == Dir(page) && !e.present then PointAt(e, NewTable(s)) else e
    {
      MapPageDirectory(s, pd, page, target, i);
    }
    if !At(s.mem, pd)[Dir(page)].present {
      NewTableIsFresh(s);
    }
    forall i: nat | i < ENTRIES && HasTable(r.mem, pd, i)
      ensures Held(r.frames, At(r.mem, pd)[i].address) && At(r.mem, pd)[i].address != pd
    {
      assert HasTable(s.mem, pd, i) || i == Dir(page);
    }
    forall i: nat, j: nat | i < j < ENTRIES && HasTable(r.mem, pd, i) && HasTable(r.mem, pd, j)
      ensures At(r.mem, pd)[i].address != At(r.mem, pd)[j].address
    {
      assert HasTable(s.mem, pd, i) || i == Dir(page);
      assert HasTable(s.mem, pd, j) || j == Dir(page);
    }
  }

  /** Only the directory and one page table are written; the table is one of the directory's, or a fresh frame. */
  lemma MapPageFrame(s: Vm, pd: Frame, page: Frame, target: Frame, f: Frame)
    requires WellFormed(s, pd)
    requires !At(s.mem, pd)[Dir(page)].large
    requires At(s.mem, pd)[Dir(page)].present || Available(s.frames)
    requires f != pd && !IsTable(s.mem, pd, f) && Held(s.frames, f)
    ensures At(MapPage(s, pd, page, target).mem, f) == At(s.mem, f)
  {
    if At(s.mem, pd)[Dir(page)].present {
      assert HasTable(s.mem, pd, Dir(page));
    } else {
      NewTableIsFresh(s);
    }
  }

  // ------------------------------------------------------------------
  // Which bits the code writes
  // ------------------------------------------------------------------

  /** The fields `paging_map` and the two initialisers never write. */
  predicate SameRest(e: Entry, e': Entry) {
    e'.flags == e.flags && e'.large == e.large && e'.available == e.available
  }

  /** Initialising a table makes its entries absent, writable and kernel-only, and writes nothing else anywhere. */
  lemma InitTableEntries(m: Memory, frame: Frame, f: int, i: nat)
    requires i < ENTRIES
    ensures var e, e' := At(m, f)[i], At(InitTable(m, frame), f)[i];
            if f == frame then !e'.present && e'.writable && !e'.user && e'.address == e.address && SameRest(e, e')
            else e' == e
  {
  }

  /** The frame that one turn of the loop takes for the page's table. */
  function TableOf(s: Vm, pd: Frame, page: Frame): Frame
    requires s.frames.max <= BITMAP_FRAMES
  {
    if At(s.mem, pd)[Dir(page)].present then At(s.mem, pd)[Dir(page)].address else NewTable(s)
  }

  /**
   * An entry before and after: one of the table's entries or not, the page's directory entry or not, at the page's
   * index or not.
   */
  predicate EntryAfter(e: Entry, e': Entry, inTable: bool, isDir: bool, atIndex: bool, missing: bool, table: Frame,
                       target: Frame)
  {
    && SameRest(e, e')
    && (if inTable && atIndex then e'.present && e'.writable && !e'.user && e'.address == target
        else if inTable && missing then !e'.present && e'.writable && !e'.user && e'.address == e.address
        else if isDir && missing then
          e'.present && e'.writable == e.writable && e'.user == e.user && e'.address == table
        else e' == e)
  }

  /**
   * All that one turn of the loop writes, bit by bit: the page's entry becomes present, writable and kernel-only, with
   * the target's address; a missing table is made, all of its entries initialised, and its directory entry becomes
   * present, with the table's address. No other entry of any frame changes, and no other bit of these.
   */
  lemma MapPageEntries(s: Vm, pd: Frame, page: Frame, target: Frame, f: int, i: nat)
    requires s.frames.max <= BITMAP_FRAMES && i < ENTRIES
    requires At(s.mem, pd)[Dir(page)].present || NewTable(s) != pd
    ensures var missing := !At(s.mem, pd)[Dir(page)].present;
            && MapPage(s, pd, page, target).frames == (if missing then Alloc(s.frames) else s.frames)
            && EntryAfter(At(s.mem, f)[i], At(MapPage(s, pd, page, target).mem, f)[i], f == TableOf(s, pd, page),
               f == pd && i == Dir(page), i == Idx(page), missing, TableOf(s, pd, page), target)
  {
    if !At(s.mem, pd)[Dir(page)].present {
      InitTableEntries(s.mem, NewTable(s), f, i);
    }
  }

  // ------------------------------------------------------------------
  // The code itself
  // ------------------------------------------------------------------

  const FAILURE: uint32 := 0xFFFF_FFFF

  class PageMemory {
    const pmm: FrameAllocator
    var mem: Memory

    ghost predicate Valid()
      reads this, pmm, pmm.bitmap
    {
      pmm.Valid()
    }

    ghost function Abs(): Vm
      reads this, pmm
    {
      Vm(mem, pmm.Abs())
    }

    constructor (allocator: FrameAllocator, memory: Memory)
      requires allocator.Valid()
      ensures Valid() && pmm == allocator && mem == memory
    {
      pmm := allocator;
      mem := memory;
    }

    /** The loop shared by `paging_init_directory` and `paging_init_table`. */
    method ClearEntries(frame: Frame)
      modifies this`mem
      ensures mem == InitTable(old(mem), frame)
    {
      ghost var before := At(mem, frame);
      for i := 0 to ENTRIES
        invariant i == 0 ==> mem == old(mem)
        invariant i > 0 ==> mem == old(mem)[frame := ClearedTo(before, i)]
      {
        mem := mem[frame := At(mem, frame)[i := Cleared(At(mem, frame)[i])]];
        assert At(mem, frame) == ClearedTo(before, i + 1);
      }
    }

    method InitDirectory(directory: uint32) returns (r: uint32)
      modifies this`mem
      ensures r == if directory % 4096 == 0 then 0 else FAILURE
      ensures mem == if directory % 4096 == 0 then InitTable(old(mem), PageOf(directory)) else old(mem)
    {
      if directory % 4096 != 0 {
        return FAILURE;
      }
      ClearEntries(PageOf(directory));
      return 0;
    }

    method InitPageTable(table: uint32) returns (r: uint32)
      modifies this`mem
      ensures r == if table % 4096 == 0 then 0 else FAILURE
      ensures mem == if table % 4096 == 0 then InitTable(old(mem), PageOf(table)) else old(mem)
    {
      if table % 4096 != 0 {
        return FAILURE;
      }
      ClearEntries(PageOf(table));
      return 0;
    }

    method Map(directory: uint32, virtualAddr: uint32, physicalAddr: uint32, size: uint32) returns (r: uint32)
      requires Valid() && directory % 4096 == 0
      modifies this`mem, pmm`framesUsed, pmm`used, pmm.bitmap
      ensures Valid()
      ensures size % 4096 != 0 ==> r == FAILURE && Abs() == old(Abs())
      ensures size % 4096 == 0 ==>
                && r == 0
                && Abs() == MapPages(old(Abs()), PageOf(directory), PageOf(virtualAddr), PageOf(physicalAddr),
                   size / 4096)
    {
      if size % 4096 != 0 {
        return FAILURE;
      }
      AlignedSize(size);
      var count := Align4K(size) / 4096;
      var workingVirt := virtualAddr;
      var workingPhys := physicalAddr;
      ghost var s := Abs();
      for i := 0 to count
        invariant Valid()
        invariant workingVirt == Advance(virtualAddr, i) && workingPhys == Advance(physicalAddr, i)
        invariant Abs() == MapPages(s, PageOf(directory), PageOf(virtualAddr), PageOf(physicalAddr), i)
      {
        MapPagesNext(s, PageOf(directory), virtualAddr, physicalAddr, i);
        MapOne(PageOf(directory), workingVirt, workingPhys);
        workingVirt := Add(workingVirt, 4096);
        workingPhys := Add(workingPhys, 4096);
      }
      return 0;
    }

    /** A frame for a new page table, all of its entries absent, and the directory entry that points to it. */
    method MakeTable(pd: Frame, dirIndex: nat) returns (table: uint32)
      requires Valid() && dirIndex < ENTRIES
      modifies this`mem, pmm`framesUsed, pmm`used, pmm.bitmap
      ensures Valid() && Abs() == WithTable(old(Abs()), pd, dirIndex)
      ensures PageOf(table) == NewTable(old(Abs()))
    {
      ghost var s := Abs();
      table := pmm.AllocFrame();
      PageOfAddress(NewTable(s));
      var ignored := InitPageTable(table);
      mem := WriteEntry(mem, pd, dirIndex, PointAt(At(mem, pd)[dirIndex], PageOf(table)));
    }

    /** The body of the loop: find or make the table, then fill in the entry. */
    method MapOne(pd: Frame, workingVirt: uint32, workingPhys: uint32)
      requires Valid()
      modifies this`mem, pmm`framesUsed, pmm`used, pmm.bitmap
      ensures Valid()
      ensures Abs() == MapPage(old(Abs()), pd, PageOf(workingVirt), PageOf(workingPhys))
    {
      IndexArithmetic(workingVirt);
      var dirIndex := workingVirt / 0x40_0000 % 1024;
      var tblIndex := workingVirt / 4096 % 1024;
      var table: uint32;
      if !At(mem, pd)[dirIndex].present {
        table := MakeTable(pd, dirIndex);
      } else {
        table := At(mem, pd)[dirIndex].address * 4096;
      }
      mem := WriteEntry(mem, PageOf(table), tblIndex, MapTo(At(mem, PageOf(table))[tblIndex], PageOf(workingPhys)));
    }
  }

  lemma PageOfAddress(f: Frame)
    ensures f * 4096 % 4096 == 0 && PageOf(f * 4096) == f
  {
  }

  /** `i` additions of the page size to a 32-bit address. */
  function Advance(addr: uint32, i: nat): uint32 {
    if i == 0 then addr else Add(Advance(addr, i - 1), 4096)
  }

  lemma {:induction false} AdvancePage(addr: uint32, i: nat)
    ensures PageOf(Advance(addr, i)) == Plus(PageOf(addr), i)
  {
    if i > 0 {
      AdvancePage(addr, i - 1);
      NextPage(Advance(addr, i - 1));
      PlusOne(PageOf(addr), i - 1);
    }
  }

  lemma NextPage(a: uint32)
    ensures PageOf(Add(a, 4096)) == Plus(PageOf(a), 1)
  {
  }

  lemma PlusOne(page: Frame, i: nat)
    ensures Plus(Plus(page, i), 1) == Plus(page, i + 1)
  {
  }

  lemma MapPagesNext(s: Vm, pd: Frame, va: uint32, pa: uint32, i: nat)
    requires s.frames.max <= BITMAP_FRAMES
    ensures MapPages(s, pd, PageOf(va), PageOf(pa), i + 1) ==
            MapPage(MapPages(s, pd, PageOf(va), PageOf(pa), i), pd, PageOf(Advance(va, i)), PageOf(Advance(pa, i)))
  {
    AdvancePage(va, i);
    AdvancePage(pa, i);
  }

  lemma AlignedSize(size: uint32)
    requires size % 4096 == 0
    ensures Align4K(size) == size
  {
    Align4KRoundsUp(size);
  }
}
