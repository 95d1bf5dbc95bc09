/**
 * The kernel heap's code, kernel/kheap.c, over word-addressed memory: what its search and its walk read of the heap,
 * and a class whose methods are the functions of that file, each proved to leave the memory that `HeapCalls` gives for
 * it.
 */
module KernelHeap {
  import opened Words
  import opened HeapBlocks
  import opened HeapMemory
  import opened HeapOps
  import opened HeapFaults
  import opened HeapRelease
  import opened HeapRuns
  import opened HeapCalls
  import opened Unaligned

  // ------------------------------------------------------------------
  // Following the free list
  // ------------------------------------------------------------------

  /** Index of the first free block at or after `k`. */
  function NextMember(bs: seq<Block>, k: nat): (r: nat)
    requires k <= |bs|
    ensures k <= r <= |bs|
    ensures r < |bs| ==> !bs[r].used
    ensures forall j :: k <= j < r ==> bs[j].used
    decreases |bs| - k
  {
    if k == |bs| || !bs[k].used then k else NextMember(bs, k + 1)
  }

  /** The address the free list holds for the `k`-th block, zero past the end. */
  function MemberAddr(start: int, bs: seq<Block>, k: nat): int
    requires k <= |bs|
  {
    if k < |bs| then Addr(start, bs, k) else 0
  }

  lemma {:induction false} FirstFreeMember(start: int, bs: seq<Block>, k: nat)
    requires k <= |bs|
    ensures FirstFree(Addr(start, bs, k), bs[k..], 0) == MemberAddr(start, bs, NextMember(bs, k))
    decreases |bs| - k
  {
    if k < |bs| {
      assert bs[k..][1..] == bs[k + 1..];
      if bs[k].used {
        AddrNext(start, bs, k);
        FirstFreeMember(start, bs, k + 1);
      }
    }
  }

  /** Used blocks do not change which block fits best. */
  lemma {:induction false} BestSkips(bs: seq<Block>, request: uint32, k: nat, n: nat)
    requires k <= n <= |bs| && forall j :: k <= j < n ==> bs[j].used
    ensures Best(bs[..n], request) == Best(bs[..k], request)
    decreases n
  {
    if k < n {
      BestStep(bs, request, n - 1);
      BestSkips(bs, request, k, n - 1);
    }
  }

  lemma BestStep(bs: seq<Block>, request: uint32, k: nat)
    requires k < |bs|
    ensures var r := Best(bs[..k], request);
            Best(bs[..k + 1], request) ==
            if Fits(bs[k], request) && (r < 0 || bs[k].size < bs[r].size) then k else r
  {
    assert bs[..k + 1][..k] == bs[..k];
  }

  /** What the header of a block says, and where it lies. */
  lemma HeaderAt(m: Memory, start: int, bs: seq<Block>, k: nat)
    requires Heap(m, start, bs) && k < |bs|
    ensures var a := Addr(start, bs, k);
            && OVERHEAD <= a && a + bs[k].size + OVERHEAD + OVERHEAD <= TWO32
            && Load(m, a) == bs[k].size
            && Load(m, a + USED) == Flag(bs[k].used)
  {
    SegAt(m, start, bs, k, true);
    AddrBounds(start, bs, k);
  }

  /** Where a walk along the free list goes from its `k`-th block. */
  lemma NextPointer(m: Memory, start: int, bs: seq<Block>, k: nat)
    requires Heap(m, start, bs) && k < |bs| && (k == 0 || !bs[k].used)
    ensures Load(m, Addr(start, bs, k) + NEXT) as int == MemberAddr(start, bs, NextMember(bs, k + 1))
  {
    NextWord(m, start, bs, k);
    NextAddr(start, bs, k);
  }

  lemma NextWord(m: Memory, start: int, bs: seq<Block>, k: nat)
    requires Heap(m, start, bs) && k < |bs| && (k == 0 || !bs[k].used)
    ensures Load(m, Addr(start, bs, k) + NEXT) == FirstFree(Addr(start, bs, k) + bs[k].size + OVERHEAD, bs[k + 1..], 0)
  {
    SegAt(m, start, bs, k, true);
  }

  lemma NextAddr(start: int, bs: seq<Block>, k: nat)
    requires k < |bs|
    ensures FirstFree(Addr(start, bs, k) + bs[k].size + OVERHEAD, bs[k + 1..], 0) ==
            MemberAddr(start, bs, NextMember(bs, k + 1))
  {
    FirstFreeMember(start, bs, k + 1);
    assert Addr(start, bs, k + 1) == Addr(start, bs, k) + bs[k].size + OVERHEAD by {
      AddrNext(start, bs, k);
    }
  }

  /** All that the search for a free block reads of the heap. */
  ghost predicate Member(m: Memory, start: int, bs: seq<Block>, k: nat)
    requires k < |bs|
  {
    var a := Addr(start, bs, k);
    && OVERHEAD <= a
    && Load(m, a) == bs[k].size
    && Load(m, a + USED) == Flag(bs[k].used)
    && (k == 0 || !bs[k].used ==> Load(m, a + NEXT) as int == MemberAddr(start, bs, NextMember(bs, k + 1)))
  }

  lemma HeapMembers(m: Memory, start: int, bs: seq<Block>)
    requires Heap(m, start, bs)
    ensures bs != [] && forall k: nat :: k < |bs| ==> Member(m, start, bs, k)
  {
    forall k: nat | k < |bs|
      ensures Member(m, start, bs, k)
    {
      HeaderAt(m, start, bs, k);
      if k == 0 || !bs[k].used {
        NextPointer(m, start, bs, k);
      }
    }
  }

  /** Address of the best fit among the first `k` blocks, zero when there is none. */
  function BestAddr(start: int, bs: seq<Block>, request: uint32, k: nat): int
    requires k <= |bs|
  {
    var r := Best(bs[..k], request);
    if r < 0 then 0 else Addr(start, bs, r)
  }

  lemma BestAfter(start: int, bs: seq<Block>, request: uint32, k: nat)
    requires k < |bs|
    ensures var r := Best(bs[..k], request); var next := NextMember(bs, k + 1);
            BestAddr(start, bs, request, next) ==
            if Fits(bs[k], request) && (r < 0 || bs[k].size < bs[r].size) then Addr(start, bs, k)
            else BestAddr(start, bs, request, k)
  {
    BestStep(bs, request, k);
    BestSkips(bs, request, k + 1, NextMember(bs, k + 1));
  }

  /** One turn of the search: what it reads takes it to the next member with the best fit so far. */
  lemma SearchStep(m: Memory, start: int, bs: seq<Block>, request: uint32, k: nat, current: int, best: int)
    requires k < |bs| && (k == 0 || !bs[k].used) && current == Addr(start, bs, k) &&
             best == BestAddr(start, bs, request, k)
    requires forall j: nat :: j < |bs| ==> Member(m, start, bs, j)
    ensures current != 0
    ensures Load(m, current + NEXT) as int == MemberAddr(start, bs, NextMember(bs, k + 1))
    ensures BestAddr(start, bs, request, NextMember(bs, k + 1)) ==
            if Load(m, current + USED) == 0 && Load(m, current) >= request &&
              (best == 0 || Load(m, current) < Load(m, best))
            then current else best
  {
    assert Member(m, start, bs, k);
    var r := Best(bs[..k], request);
    if r >= 0 {
      assert Member(m, start, bs, r);
    }
    BestAfter(start, bs, request, k);
  }

  // ------------------------------------------------------------------
  // kmalloc: what serving a request does
  // ------------------------------------------------------------------

  /** What the search found, and where it lies. */
  lemma BestFound(m: Memory, start: int, bs: seq<Block>, request: uint32)
    requires Heap(m, start, bs)
    ensures var k := Best(bs, request);
            && (k < 0 <==> BestAddr(start, bs, request, |bs|) == 0)
            && (k >= 0 ==>
                  && BestAddr(start, bs, request, |bs|) == Addr(start, bs, k)
                  && 0 < Addr(start, bs, k) < TWO32
                  && request <= Load(m, Addr(start, bs, k)))
  {
    assert bs[..|bs|] == bs;
    var k := Best(bs, request);
    if k >= 0 {
      HeaderAt(m, start, bs, k);
    }
  }

  /** What is handed out, and where. */
  lemma ServedWhere(m: Memory, start: uint32, bs: seq<Block>, k: nat, a: uint32, request: uint32)
    requires Heap(m, start, bs) && k < |bs| && Fits(bs[k], request) && request % 4 == 0 && a == Addr(start, bs, k)
    ensures Load(m, a) == bs[k].size && request <= bs[k].size
    ensures var r := AllocResult(a, bs[k].size, request);
            && r as int == a as int + bs[k].size - request + HEADER
            && start < r < start as int + HEAP_MAX_SIZE + OVERHEAD && r % 4 == 0
  {
    HeaderAt(m, start, bs, k);
    AddrBounds(start, bs, k);
    assert a % 4 == 0 && 0 < bs[k].size && bs[k].size % 4 == 0 by {
      AlignedAddr(m, start, bs, k);
      SegAt(m, start, bs, k, true);
    }
    ResultPlace(a, bs[k].size, request);
  }

  lemma ResultPlace(a: uint32, size: uint32, request: uint32)
    requires OVERHEAD <= a && a as int + size + OVERHEAD + OVERHEAD <= TWO32 && request <= size
    requires a % 4 == 0 && size % 4 == 0 && request % 4 == 0
    ensures AllocResult(a, size, request) == a as int + size - request + HEADER
    ensures AllocResult(a, size, request) % 4 == 0
  {
    SplitArithmetic(a, size, request);
  }

  // ------------------------------------------------------------------
  // kfree: the walk
  // ------------------------------------------------------------------

  /** All that the walk of a release to block `i` reads of block `j`. */
  ghost predicate Step(m: Memory, start: int, bs: seq<Block>, i: nat, j: nat)
    requires j <= i < |bs|
  {
    var a := Addr(start, bs, j);
    && 0 < start <= a && a + bs[j].size + OVERHEAD < TWO32
    && Load(m, a) == bs[j].size && 0 < bs[j].size
    && (j < i ==>
          && a < Addr(start, bs, i)
          && Addr(start, bs, j + 1) == a + bs[j].size + OVERHEAD
          && LastSeen(start, bs, j + 1) == if Load(m, a + USED) == 0 then a else LastSeen(start, bs, j))
  }

  lemma WalkStep(m: Memory, m1: Memory, start: int, bs: seq<Block>, i: nat, j: nat)
    requires Heap(m, start, bs) && j <= i < |bs| && Marked(m, m1, Addr(start, bs, i), bs[i])
    ensures Step(m1, start, bs, i, j)
  {
    AddrBounds(start, bs, j);
    SegAt(m, start, bs, j, true);
    if j < i {
      AddrOrder(start, bs, j, i);
      AddrNext(start, bs, j);
      assert bs[..j + 1][..j] == bs[..j];
      assert bs[..0] == [];
    }
  }

  lemma ReadyToWalk(m: Memory, m1: Memory, start: uint32, bs: seq<Block>, i: nat)
    requires Heap(m, start, bs) && i < |bs| && Marked(m, m1, Addr(start, bs, i), bs[i])
    ensures forall j: nat :: j <= i ==> Step(m1, start, bs, i, j)
  {
    forall j: nat | j <= i
      ensures Step(m1, start, bs, i, j)
    {
      WalkStep(m, m1, start, bs, i, j);
    }
  }

  /** Every word of the heap can be read. */
  predicate Mapped(readable: int -> bool, from: int, to: int) {
    forall a :: from <= a < to ==> readable(a)
  }

  /** Coalescing a block that is not the first one stays in the heap. */
  lemma NoFault(m: Memory, start: uint32, bs: seq<Block>, i: nat, f: uint32, readable: int -> bool)
    requires Heap(m, start, bs) && 0 < i < |bs| && bs[i].used && f == Addr(start, bs, i)
    requires Mapped(readable, start, start + HEAP_MAX_SIZE + OVERHEAD)
    ensures !Faults(Linked(m, start, bs, i), f, readable)
  {
    var m1 := Linked(m, start, bs, i);
    assert PrevHeader(m1, f) == Addr(start, bs, i - 1) by {
      LooksLeftLinked(m, start, bs, i, f);
    }
    AddrBounds(start, bs, i);
    AddrBounds(start, bs, i - 1);
    AddrOrder(start, bs, i - 1, i);
  }

  lemma LooksLeftLinked(m: Memory, start: uint32, bs: seq<Block>, i: nat, f: uint32)
    requires Heap(m, start, bs) && 0 < i < |bs| && bs[i].used && f == Addr(start, bs, i)
    ensures PrevHeader(Linked(m, start, bs, i), f) == Addr(start, bs, i - 1)
  {
    LastSeenRange(start, bs, i);
    LinkedWrites(m, start, bs, i, f);
    FreeInMemory(m, Linked(m, start, bs, i), start, bs, i);
    FreedAddr(start, bs, i, i);
    FreedAddr(start, bs, i, i - 1);
    LooksLeft(Linked(m, start, bs, i), start, Freed(start, bs, i), i, f);
  }

  /** How a call of `kfree` ends: with the pointer refused, with the block released, or in a page fault. */
  datatype Outcome = Refused | Done | PageFault

  /** What follows for the heap from the memory after a request ... */
  lemma MallocDone(m: Memory, start: uint32, bs: seq<Block>, size: uint32, bs': seq<Block>)
    requires Heap(m, start, bs)
    requires var n := Next(start, bs, Malloc(size), false, false); bs' == if n.Some? then n.value else bs
    ensures var n, m' := Next(start, bs, Malloc(size), false, false), MallocMemory(m, start, bs, size);
            && (Heap(m', start, bs') <==> n.Some?)
            && (n.None? ==> NoHeap(m', start))
            && (n.Some? ==> KeepsLive(m, m', start, bs) && KeepsOutside(m, m', start))
  {
    MallocFit(m, start, bs, size, false, false);
  }

  /** ... and after a release. */
  lemma FreeDone(m: Memory, start: uint32, bs: seq<Block>, ptr: uint32, i: nat, repaired: bool, quiet: bool,
                 bs': seq<Block>)
    requires Heap(m, start, bs) && start <= ptr <= start as int + HEAP_MAX_SIZE + OVERHEAD &&
             i == LiveIndex(start, bs, ptr)
    requires i == 0 ==> quiet == QuietRelease(m, start, bs)
    requires bs' == if ReleaseSound(bs, i, repaired, quiet) then Released(start, bs, i) else bs
    ensures var n, m' := Next(start, bs, Free(ptr), repaired, quiet), FreeMemory(m, start, bs, i, repaired);
            && Returned(m, m', start, bs, i, repaired, quiet)
            && (n.Some? ==> Heap(m', start, bs') && n.value == bs')
            && (n.None? && (i > 0 || quiet) ==> NoHeap(m', start))
  {
    ReleaseFit(m, start, bs, i, repaired, quiet);
  }

  class KernelHeap {
    const heapStart: uint32
    const heapEnd: uint32
    /** Whether the four bytes at an address are mapped. */
    const readable: int -> bool
    var mem: Memory
    ghost var blocks: seq<Block>

    ghost predicate Valid()
      reads this
    {
      && Heap(mem, heapStart, blocks)
      && heapEnd == heapStart as int + HEAP_MAX_SIZE + OVERHEAD
      && Mapped(readable, heapStart, heapEnd)
    }

    function Word(a: int): uint32
      reads this
    {
      Load(mem, a)
    }

    /**
     * `heap_init`: one free block fills the cleared heap. The word after its last trailer, which the code takes for the
     * header that ends the heap, is not written: unless it is zero already no heap is left.
     */
    constructor (start: uint32, memory: Memory, mapped: int -> bool)
      requires Place(start) && Mapped(mapped, start, start + HEAP_MAX_SIZE + OVERHEAD)
      ensures heapStart == start && heapEnd == start + HEAP_MAX_SIZE + OVERHEAD && readable == mapped
      ensures mem == InitMemory(memory, start) && blocks == Initial()
      ensures Valid() <==> Load(memory, start + HEAP_MAX_SIZE + OVERHEAD) == 0
      ensures !Valid() ==> NoHeap(mem, start)
      ensures KeepsOutside(memory, mem, start)
    {
      heapStart := start;
      heapEnd := start + HEAP_MAX_SIZE + OVERHEAD;
      readable := mapped;
      mem := memory;
      blocks := Initial();
      new;
      Memset(start, HEAP_MAX_SIZE + HEADER + TRAILER);
      InitBlock(start);
      InitFit(memory, start);
    }

    /** The tags of the one block `heap_init` makes. */
    method InitBlock(addr: uint32)
      modifies this`mem
      ensures mem == CreateBlock(old(mem), addr, HEAP_MAX_SIZE, false, 0, 0)
    {
      Write(addr + SIZE, HEAP_MAX_SIZE);
      Write(addr + USED, 0);
      Write(addr + PREV, 0);
      Write(addr + NEXT, 0);
      var trailer: int := TrailerOf(addr, Word(addr + SIZE));
      Write(trailer, HEAP_MAX_SIZE);
      Write(trailer + 4, 0);
    }

    method Write(a: int, v: uint32)
      modifies this`mem
      ensures mem == old(mem)[a := v]
    {
      mem := mem[a := v];
    }

    /** A store at an address that need not be aligned. */
    method WriteAnywhere(a: uint32, v: uint32)
      modifies this`mem
      ensures mem == Poke(old(mem), a, v)
    {
      mem := Poke(mem, a, v);
    }

    /** `memset(dest, 0, len)`, a word at a time. */
    method Memset(dest: uint32, len: uint32)
      requires len % 4 == 0
      modifies this`mem
      ensures mem == ZeroWords(old(mem), dest, len)
    {
      var done: int := 0;
      while done < len
        invariant 0 <= done <= len && done % 4 == 0
        invariant mem == ZeroWords(old(mem), dest, done)
      {
        Write(dest as int + done, 0);
        done := done + 4;
      }
    }

    /** `heap_update_block` */
    method HeapUpdateBlock(addr: uint32, size: uint32, used: bool)
      modifies this`mem
      ensures mem == UpdateBlock(old(mem), addr, size, used)
    {
      Write(addr + SIZE, size);
      Write(addr + USED, Flag(used));
      var trailer: int := TrailerOf(addr, size);
      Write(trailer, size);
      Write(trailer + 4, Flag(used));
    }

    /** `heap_create_new_block` */
    method HeapCreateNewBlock(addr: uint32, size: uint32, used: bool, prev: uint32, next: uint32)
      modifies this`mem
      ensures mem == CreateBlock(old(mem), addr, size, used, prev, next)
    {
      Write(addr + SIZE, size);
      Write(addr + USED, Flag(used));
      Write(addr + PREV, prev);
      Write(addr + NEXT, next);
      var trailer: int := TrailerOf(addr, size);
      Write(trailer, size);
      Write(trailer + 4, Flag(used));
    }

    /** `heap_remove_free_block` */
    method HeapRemoveFreeBlock(header: uint32)
      modifies this`mem
      ensures mem == Unlink(old(mem), header)
    {
      if Word(header + PREV) != 0 {
        Write(Word(header + PREV) + NEXT, Word(header + NEXT));
      }
      if Word(header + NEXT) != 0 {
        Write(Word(header + NEXT) + PREV, Word(header + PREV));
      }
    }

    /**
     * `heap_coalesce_free_block`, as written or with the left merge's trailer write aimed at the merged block. It reads
     * the block before the one given, which for the first block is whatever lies below the heap.
     */
    method HeapCoalesceFreeBlock(freeBlock: uint32, repaired: bool) returns (fault: bool)
      modifies this`mem
      ensures fault == Faults(old(mem), freeBlock, readable)
      ensures !fault ==> mem == Coalesce(old(mem), freeBlock, repaired)
      ensures fault ==> mem == if readable(Sub(freeBlock, TRAILER)) then AbsorbRight(old(mem), freeBlock) else old(mem)
    {
      var prevTrailer: uint32 := Sub(freeBlock, TRAILER);
      if !readable(prevTrailer) {
        return true;
      }
      var prevHeader: uint32 := Sub(Sub(prevTrailer, Word(prevTrailer)), HEADER);
      var nextHeader: uint32 := Add(Add(Add(freeBlock, HEADER), Word(freeBlock + SIZE)), TRAILER);
      var nextTrailer: uint32 := TrailerOf(nextHeader, Word(nextHeader + SIZE));
      if Word(nextHeader + SIZE) != 0 && Word(nextHeader + USED) == 0 {
        var newSize := Add(Add(Add(Word(freeBlock + SIZE), TRAILER), HEADER), Word(nextHeader + SIZE));
        Write(freeBlock + NEXT, Word(nextHeader + NEXT));
        Write(freeBlock + SIZE, newSize);
        Write(nextTrailer, newSize);
        Write(nextTrailer + 4, 0);
      }
      assert mem == AbsorbRight(old(mem), freeBlock);
      if repaired {
        nextTrailer := OwnTrailer(mem, freeBlock, prevHeader);
      }
      fault := MergeIntoPrevious(prevHeader, freeBlock, nextTrailer);
    }

    /** The second half of `heap_coalesce_free_block`. */
    method MergeIntoPrevious(prevHeader: uint32, freeBlock: uint32, trailer: uint32) returns (fault: bool)
      modifies this`mem
      ensures fault <==> !readable(prevHeader) || (Peek(old(mem), prevHeader) != 0 && !readable(Add(prevHeader, USED)))
      ensures mem == if fault then old(mem) else AbsorbLeft(old(mem), freeBlock, prevHeader, trailer)
    {
      if !readable(prevHeader) {
        return true;
      }
      if Peek(mem, prevHeader) != 0 {
        if !readable(Add(prevHeader, USED)) {
          return true;
        }
        if Peek(mem, Add(prevHeader, USED)) == 0 {
          var newSize := Add(Add(Add(Peek(mem, prevHeader), TRAILER), HEADER), Word(freeBlock + SIZE));
          WriteAnywhere(prevHeader, newSize);
          WriteAnywhere(Add(prevHeader, NEXT), Word(freeBlock + NEXT));
          WriteAnywhere(trailer, newSize);
          WriteAnywhere(Add(trailer, 4), 0);
        }
      }
      return false;
    }

    /** The search of `kmalloc`: walk the free list, keep the smallest block that is large enough. */
    method FindBest(request: uint32) returns (best: uint32)
      requires blocks != [] && forall k: nat :: k < |blocks| ==> Member(mem, heapStart, blocks, k)
      ensures best == BestAddr(heapStart, blocks, request, |blocks|)
    {
      var current: uint32 := heapStart;
      best := 0;
      ghost var k: nat := 0;
      while current != 0
        invariant k <= |blocks| && (k == 0 || k == |blocks| || !blocks[k].used)
        invariant current as int == MemberAddr(heapStart, blocks, k)
        invariant best == BestAddr(heapStart, blocks, request, k)
        decreases |blocks| - k
      {
        SearchStep(mem, heapStart, blocks, request, k, current, best);
        if Word(current + USED) == 0 {
          if best == 0 {
            if Word(current + SIZE) >= request {
              best := current;
            }
          } else {
            if Word(current + SIZE) >= request && Word(current + SIZE) < Word(best + SIZE) {
              best := current;
            }
          }
        }
        current := Word(current + NEXT);
        k := NextMember(blocks, k + 1);
      }
      if k < |blocks| {
        SearchStep(mem, heapStart, blocks, request, k, 0, best);
      }
    }

    /** The two cases of `kmalloc`: hand out the whole block, or carve the request off its end. */
    method Serve(best: uint32, request: uint32) returns (r: uint32)
      modifies this`mem
      ensures request <= old(Word(best)) ==>
                mem == AllocMemory(old(mem), best, old(Word(best)), request) &&
                  r == AllocResult(best, old(Word(best)), request)
      ensures request > old(Word(best)) ==> mem == old(mem) && r == 0
    {
      if Word(best + SIZE) == request {
        HeapUpdateBlock(best, request, true);
        HeapRemoveFreeBlock(best);
        return Add(best, HEADER);
      }
      if Word(best + SIZE) > request {
        var newBlock: uint32 := Sub(Sub(Add(Add(best, HEADER), Word(best + SIZE)), HEADER), request);
        var oldSize: uint32 := Sub(Sub(Sub(Word(best + SIZE), HEADER), request), TRAILER);
        HeapUpdateBlock(best, oldSize, false);
        HeapCreateNewBlock(newBlock, request, true, best, Word(best + NEXT));
        return Add(newBlock, HEADER);
      }
      return 0;
    }

    /**
     * `kmalloc`: the heap's blocks change as the model of the call says, or no heap is left in memory. A request of
     * zero, or one no free block can hold, changes nothing; any other gets the end of the best fit, and as long as a
     * heap is left no live payload and nothing outside the heap is written.
     */
    method Kmalloc(size: uint32) returns (r: uint32)
      requires Valid()
      modifies this
      ensures mem == MallocMemory(old(mem), heapStart, old(blocks), size)
      ensures (if Valid() then Some(blocks) else None) == Next(heapStart, old(blocks), Malloc(size), false, false)
      ensures !Valid() ==> NoHeap(mem, heapStart)
      ensures
        var bs, request := old(blocks), RoundUp4(size);
        var k := Best(bs, request);
        if size == 0 || k < 0 then
          r == 0 && mem == old(mem)
        else
          r as int == Addr(heapStart, bs, k) + bs[k].size - request + HEADER
      ensures r == 0 || (heapStart < r < heapEnd && r % 4 == 0)
      ensures Valid() ==> KeepsLive(old(mem), mem, heapStart, old(blocks)) && KeepsOutside(old(mem), mem, heapStart)
    {
      ghost var m, bs, k := mem, blocks, Best(blocks, RoundUp4(size));
      ghost var n := Next(heapStart, bs, Malloc(size), false, false);
      MallocDone(m, heapStart, bs, size, if n.Some? then n.value else bs);
      if size <= 0 {
        return 0;
      }
      var request: uint32 := RoundUp4(size);
      HeapMembers(m, heapStart, bs);
      var best := FindBest(request);
      BestFound(m, heapStart, bs, request);
      if best == 0 {
        return 0;
      }
      RoundUp4Value(size);
      assert k >= 0 && best == Addr(heapStart, bs, k);
      ServedWhere(m, heapStart, bs, k, best, request);
      r := Serve(best, request);
      blocks := if n.Some? then n.value else bs;
    }

    /** Insert a freed block into the free list behind the member `last`. */
    method PatchFreeList(current: uint32, last: uint32)
      modifies this`mem
      ensures mem == LinkBehind(old(mem), current, last)
    {
      Write(current + NEXT, Word(last + NEXT));
      Write(current + PREV, last);
      Write(last + NEXT, current);
    }

    /** What the walk of `kfree` does at the block it looks for. */
    method LinkAndCoalesce(current: uint32, last: uint32, repaired: bool) returns (fault: bool)
      modifies this`mem
      ensures fault == Faults(LinkBehind(old(mem), current, last), current, readable)
      ensures !fault ==> mem == Coalesce(LinkBehind(old(mem), current, last), current, repaired)
    {
      PatchFreeList(current, last);
      fault := HeapCoalesceFreeBlock(current, repaired);
    }

    /** The walk of `kfree`: find the block, link it behind the last member of the list seen on the way, coalesce. */
    method LinkFreeBlock(toFree: uint32, repaired: bool, ghost i: nat, ghost linked: Memory) returns (fault: bool)
      requires i < |blocks| && toFree == Addr(heapStart, blocks, i)
      requires forall j: nat :: j <= i ==> Step(mem, heapStart, blocks, i, j)
      requires 0 <= LastSeen(heapStart, blocks, i) < TWO32
      requires linked == LinkBehind(mem, toFree, LastSeen(heapStart, blocks, i))
      modifies this`mem
      ensures fault == Faults(linked, toFree, readable)
      ensures !fault ==> mem == Coalesce(linked, toFree, repaired)
    {
      var current: uint32 := heapStart;
      var last: uint32 := current;
      var done := false;
      fault := false;
      ghost var j: nat := 0;
      assert blocks[..0] == [];
      assert Step(mem, heapStart, blocks, i, 0);
      while Word(current + SIZE) != 0 && !done
        invariant j <= i && current == Addr(heapStart, blocks, j) && last == LastSeen(heapStart, blocks, j)
        invariant !done ==> mem == old(mem) && Word(current + SIZE) != 0
        invariant done ==> fault == Faults(linked, toFree, readable)
        invariant done && !fault ==> mem == Coalesce(linked, toFree, repaired)
        decreases i - j, !done
      {
        assert Step(mem, heapStart, blocks, i, j);
        if current == toFree {
          fault := LinkAndCoalesce(current, last, repaired);
          done := true;
        } else {
          if Word(current + USED) == 0 && current != toFree {
            last := current;
          }
          current := Add(Add(Add(current, HEADER), Word(current + SIZE)), TRAILER);
          j := j + 1;
          assert Step(mem, heapStart, blocks, i, j);
        }
      }
    }

    /** The body of `kfree` past its checks: clear, mark, link, coalesce. */
    method Release(toFree: uint32, repaired: bool, ghost i: nat, ghost linked: Memory) returns (fault: bool)
      requires Valid() && i < |blocks| && toFree == Addr(heapStart, blocks, i) &&
               linked == Linked(mem, heapStart, blocks, i)
      modifies this`mem
      ensures fault == Faults(linked, toFree, readable)
      ensures !fault ==> mem == Coalesce(linked, toFree, repaired)
    {
      ghost var m := mem;
      HeapBlock(m, heapStart, blocks, i);
      MarkFreeMarks(m, heapStart, blocks, i, toFree);
      ReadyToWalk(m, MarkFree(m, toFree), heapStart, blocks, i);
      LastSeenRange(heapStart, blocks, i);
      var trailer: int := TrailerOf(toFree, Word(toFree + SIZE));
      Memset(Add(toFree, HEADER), Word(toFree + SIZE));
      Write(toFree + USED, 0);
      Write(trailer + 4, 0);
      assert mem == MarkFree(m, toFree);
      fault := LinkFreeBlock(toFree, repaired, i, linked);
    }

    /**
     * `kfree` of a live pointer, or of one outside the heap, which is refused. It faults exactly when coalescing reads
     * an unmapped address, which only the release of the first block does. Otherwise the heap's blocks change as the
     * model of the call says, with the payload cleared, no other live payload and nothing outside the heap written; or
     * no heap is left; or the first block has been merged with what the code takes for a free block below the heap.
     */
    method Kfree(ptr: uint32, repaired: bool) returns (outcome: Outcome)
      requires Valid() && (heapStart <= ptr <= heapEnd ==> LiveIndex(heapStart, blocks, ptr) >= 0)
      modifies this
      ensures outcome.Refused? <==> !(heapStart <= ptr <= heapEnd)
      ensures outcome.Refused? ==> mem == old(mem) && blocks == old(blocks)
      ensures !outcome.Refused? ==>
                var m, bs, i := old(mem), old(blocks), LiveIndex(heapStart, old(blocks), ptr);
                var quiet := Quiet(Linked(m, heapStart, bs, 0), heapStart, readable);
                var n := Next(heapStart, bs, Free(ptr), repaired, quiet);
                && (outcome.PageFault? <==> Faults(Linked(m, heapStart, bs, i), ptr - HEADER, readable))
                && (outcome.PageFault? ==> i == 0)
                && (outcome.Done? ==> mem == FreeMemory(m, heapStart, bs, i, repaired))
                && (outcome.Done? ==> Returned(m, mem, heapStart, bs, i, repaired, quiet))
                && (n.Some? ==> outcome.Done? && Valid() && blocks == n.value)
                && (n.None? && (i > 0 || quiet) ==> outcome.Done? && NoHeap(mem, heapStart))
    {
      ghost var m, bs, i := mem, blocks, LiveIndex(heapStart, blocks, ptr);
      if ptr == 0 || ptr < heapStart || ptr > heapEnd {
        return Refused;
      }
      var toFree: uint32 := Sub(ptr, HEADER);
      LastSeenRange(heapStart, bs, i);
      ghost var linked, quiet := Linked(m, heapStart, bs, i), Quiet(Linked(m, heapStart, bs, 0), heapStart, readable);
      var fault := Release(toFree, repaired, i, linked);
      assert fault == Faults(linked, ptr - HEADER, readable);
      assert !fault ==> mem == FreeMemory(m, heapStart, bs, i, repaired);
      if i > 0 {
        NoFault(m, heapStart, bs, i, toFree, readable);
      }
      if fault {
        return PageFault;
      }
      blocks := if ReleaseSound(bs, i, repaired, quiet) then Released(heapStart, bs, i) else bs;
      FreeDone(m, heapStart, bs, ptr, i, repaired, quiet, blocks);
      return Done;
    }
  }
}
