/** What lies below the heap once `vmm_init` has put it in its place, kernel/vmm.c, and what that means for `kfree`. */
module HeapPlace {
  import opened Words
  import opened Pmm
  import opened Paging
  import opened Vmm
  import HeapBlocks
  import HeapMemory
  import HeapRelease
  import HeapCalls

  function Nibble(b: bv4): (r: nat)
    ensures r < 16
  {
    b as nat
  }

  /** The eight low bits of an entry. */
  function LowByte(e: Entry): (r: nat)
    ensures r < 256
  {
    (if e.present then 1 else 0) + (if e.writable then 2 else 0) + (if e.user then 4 else 0) + 8 * Nibble(e.flags)
    + (if e.large then 128 else 0)
  }

  /** The word a directory or table entry is. */
  function EntryWord(e: Entry): uint32 {
    LowByte(e) + 256 * Nibble(e.available) + 4096 * e.address
  }

  /** The word at an aligned virtual address, if it is mapped. */
  function WordAt(m: Memory, pd: Frame, v: uint32): Option<uint32> {
    match Translate(m, pd, v)
    case None => None
    case Some(p) => Some(EntryWord(At(m, PageOf(p))[p % 4096 / 4]))
  }

  /** What `vmm_init` starts from, and a kernel image that ends below the last of the memory it can map. */
  ghost predicate BeforeBoot(s: Vm, kernelPhysEnd: uint32) {
    && Consistent(s.frames) && s.frames.used == {}
    && HEAP_PAGES + 1 <= Scanned(s.frames.max)
    && 0 < kernelPhysEnd < 0x3F00_0000 && Start(s.frames) == Align4K(kernelPhysEnd)
  }

  lemma AddressBelow(f: Frames, kernelPhysEnd: uint32)
    requires 0 < kernelPhysEnd < 0x3F00_0000 && Start(f) == Align4K(kernelPhysEnd)
    ensures var start := HeapStart(PhyToVir(kernelPhysEnd));
            && 0xC000_1000 <= start < 0xFF00_1001
            && VirToPhy(start - 8) == f.base * 4096 + 4088
  {
    Align4KRoundsUp(kernelPhysEnd);
    HeapStartIs(kernelPhysEnd);
  }

  /** The kernel's page directory lies in the frame right below the heap. */
  lemma DirectoryBelow(s: Vm, pse: bool, kernelPhysEnd: uint32)
    requires BeforeBoot(s, kernelPhysEnd) && pse
    ensures var start := HeapStart(PhyToVir(kernelPhysEnd));
            && 0xC000_1000 <= start < 0xFF00_1001
            && Translate(Boot(s, pse).mem, NewTable(s), start - 8) == Some(NewTable(s) * 4096 + 4088)
  {
    AddressBelow(s.frames, kernelPhysEnd);
    assert KernelMapped(Boot(s, pse).mem, NewTable(s)) && NewTable(s) == s.frames.base by {
      BaseNotZero(s, kernelPhysEnd);
      BootSound(s, pse);
    }
    MappedDirectly(Boot(s, pse).mem, NewTable(s), HeapStart(PhyToVir(kernelPhysEnd)) - 8);
  }

  lemma MappedDirectly(m: Memory, pd: Frame, v: uint32)
    requires KernelMapped(m, pd) && KERNEL_BASE <= v
    ensures Translate(m, pd, v) == Some(VirToPhy(v))
  {
    DirectMap(m, pd, v);
  }

  lemma BaseNotZero(s: Vm, kernelPhysEnd: uint32)
    requires BeforeBoot(s, kernelPhysEnd)
    ensures 0 < s.frames.base
  {
    Align4KRoundsUp(kernelPhysEnd);
  }

  /** With 4 MB pages the word the first block's release takes for a trailer's size is directory entry 1022. */
  lemma WordBelow(s: Vm, pse: bool, kernelPhysEnd: uint32)
    requires BeforeBoot(s, kernelPhysEnd) && pse
    ensures 0xC000_1000 <= HeapStart(PhyToVir(kernelPhysEnd)) < 0xFF00_1001
    ensures WordAt(Boot(s, pse).mem, NewTable(s), HeapStart(PhyToVir(kernelPhysEnd)) - 8) == Some(0x3F80_0083)
  {
    var m, pd := Boot(s, pse).mem, NewTable(s);
    DirectoryBelow(s, pse, kernelPhysEnd);
    InFrame(pd);
    LastButOne(s.mem, pd);
    assert EntryWord(At(m, pd)[1022]) == 1 + 2 + 128 + 4096 * (254 * 1024);
  }

  lemma InFrame(pd: Frame)
    ensures PageOf(pd * 4096 + 4088) == pd && (pd * 4096 + 4088) % 4096 / 4 == 1022
  {
  }

  lemma LastButOne(m: Memory, pd: Frame)
    ensures At(KernelDirectory(m, pd, true), pd)[1022] == Entry(true, true, false, 0, true, 0, 254 * 1024)
  {
  }

  /** Without them that entry is 2, in a directory that maps nothing at all. */
  lemma NothingMapped(m: Memory, pd: Frame, v: uint32)
    ensures EntryWord(At(KernelDirectory(m, pd, false), pd)[1022]) == 2
    ensures Translate(KernelDirectory(m, pd, false), pd, v) == None
  {
    EmptyLowHalf(m, pd, false);
    assert At(KernelDirectory(m, pd, false), pd)[Dir(PageOf(v))] == Cleared(ZERO_ENTRY);
  }

  /** The size in that word leads below the kernel half, where nothing is mapped. */
  lemma LeadsNowhere(s: Vm, pse: bool, start: uint32, word: uint32)
    requires s.frames.max <= BITMAP_FRAMES && 0x4000_0000 < start < 0xFF00_1001 && word == 0x3F80_0083
    ensures Sub(Sub(start - 8, word), 16) < KERNEL_BASE
    ensures Translate(Boot(s, pse).mem, NewTable(s), Sub(Sub(start - 8, word), 16)) == None
  {
    var p: uint32 := Sub(Sub(start - 8, word), 16);
    KernelDirectoryEmpty(s.mem, NewTable(s), pse);
    assert PageOf(p) < KERNEL_PAGE;
  }

  /** The heap's memory `hm` and what can be read of it are as the MMU shows them below the heap. */
  ghost predicate Shows(m: Memory, pd: Frame, start: uint32, hm: HeapMemory.Memory, readable: int -> bool) {
    && (forall v: uint32 {:trigger readable(v)} :: readable(v) ==> Translate(m, pd, v).Some?)
    && (start >= 8 && WordAt(m, pd, start - 8).Some? ==>
       HeapMemory.Load(hm, start - 8) == WordAt(m, pd, start - 8).value)
  }

  /**
   * So on a kernel that has booted every release of the first block faults, when the code follows what it takes for the
   * previous block's size.
   */
  lemma FirstReleaseFaults(s: Vm, pse: bool, kernelPhysEnd: uint32, start: uint32, hm: HeapMemory.Memory,
                           readable: int -> bool)
    requires BeforeBoot(s, kernelPhysEnd) && start == HeapStart(PhyToVir(kernelPhysEnd))
    requires Shows(Boot(s, pse).mem, NewTable(s), start, hm, readable)
    ensures HeapRelease.Faults(hm, start, readable)
  {
    Align4KRoundsUp(kernelPhysEnd);
    HeapStartIs(kernelPhysEnd);
    if pse {
      WordBelow(s, pse, kernelPhysEnd);
      LeadsNowhere(s, pse, start, HeapMemory.Load(hm, start - 8));
    } else {
      NothingMapped(s.mem, NewTable(s), start - 8);
    }
  }

  /** The same for the memory in which `kfree` coalesces the first block, once it is marked and linked. */
  lemma FirstReleaseAfterBoot(s: Vm, pse: bool, kernelPhysEnd: uint32, start: uint32, hm: HeapMemory.Memory,
                              bs: seq<HeapBlocks.Block>, readable: int -> bool)
    requires BeforeBoot(s, kernelPhysEnd) && start == HeapStart(PhyToVir(kernelPhysEnd))
    requires Shows(Boot(s, pse).mem, NewTable(s), start, hm, readable)
    requires HeapMemory.Heap(hm, start, bs) && bs[0].used
    ensures HeapRelease.Faults(HeapCalls.Linked(hm, start, bs, 0), start, readable)
  {
    assert bs[..0] == [];
    HeapCalls.LastSeenRange(start, bs, 0);
    HeapCalls.LinkedWrites(hm, start, bs, 0, start);
    var m1 := HeapCalls.Linked(hm, start, bs, 0);
    HeapRelease.FirstStaysInside(hm, m1, start, bs);
    assert HeapMemory.Load(m1, start - 8) == HeapMemory.Load(hm, start - 8);
    FirstReleaseFaults(s, pse, kernelPhysEnd, start, m1, readable);
  }
}
