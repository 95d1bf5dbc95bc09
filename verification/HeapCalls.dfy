/** What whole calls of kernel/kheap.c do to memory, and exactly when they leave a heap. */
module HeapCalls {
  import opened Words
  import opened HeapBlocks
  import opened HeapMemory
  import opened HeapOps
  import opened HeapFaults
  import opened HeapRelease
  import opened HeapRuns

  // ------------------------------------------------------------------
  // heap_init
  // ------------------------------------------------------------------

  /** Memory after `memset(from, 0, len)`, a word at a time. */
  function ZeroWords(m: Memory, from: int, len: int): Memory {
    if len <= 0 then m else ZeroWords(m, from, len - 4)[from + len - 4 := 0]
  }

  /** The aligned words of a range are zero and the others are as they were. */
  ghost predicate Zeroed(m: Memory, m': Memory, from: int, len: int) {
    && (forall x {:trigger Load(m', x)} :: from <= x < from + len && x % 4 == from % 4 ==> Load(m', x) == 0)
    && forall x {:trigger Load(m', x)} :: x < from || from + len <= x ==> Load(m', x) == Load(m, x)
  }

  lemma ZeroedNext(m: Memory, m1: Memory, from: int, len: int)
    requires Zeroed(m, m1, from, len) && 0 <= len && len % 4 == 0
    ensures Zeroed(m, m1[from + len := 0], from, len + 4)
  {
    forall x
      ensures from <= x < from + len + 4 && x % 4 == from % 4 ==> Load(m1[from + len := 0], x) == 0
      ensures x < from || from + len + 4 <= x ==> Load(m1[from + len := 0], x) == Load(m, x)
    {
      assert x != from + len ==> Load(m1[from + len := 0], x) == Load(m1, x);
    }
  }

  /** `memset` clears the words of the range and no others. */
  lemma {:induction false} ZeroWordsClears(m: Memory, from: int, len: int)
    requires 0 <= len && len % 4 == 0
    ensures Zeroed(m, ZeroWords(m, from, len), from, len)
    decreases len
  {
    if len > 0 {
      ZeroWordsClears(m, from, len - 4);
      ZeroedNext(m, ZeroWords(m, from, len - 4), from, len - 4);
    }
  }

  /** Memory after `heap_init`. */
  function InitMemory(m: Memory, start: uint32): Memory {
    CreateBlock(ZeroWords(m, start, HEAP_MAX_SIZE + OVERHEAD), start, HEAP_MAX_SIZE, false, 0, 0)
  }

  /** `heap_init` leaves one free block that fills the heap, provided the word after its last trailer is zero. */
  lemma InitFit(m: Memory, start: uint32)
    requires Place(start)
    ensures KeepsOutside(m, InitMemory(m, start), start)
    ensures if Load(m, start + HEAP_MAX_SIZE + OVERHEAD) == 0 then Heap(InitMemory(m, start), start, Initial())
            else NoHeap(InitMemory(m, start), start)
    ensures Heap(InitMemory(m, start), start, Initial()) <==> Load(m, start + HEAP_MAX_SIZE + OVERHEAD) == 0
  {
    var m1, b := ZeroWords(m, start, HEAP_MAX_SIZE + OVERHEAD), Initial()[0];
    ZeroWordsClears(m, start, HEAP_MAX_SIZE + OVERHEAD);
    CreateBlockWrites(m1, start, b, 0);
    SegOne(InitMemory(m, start), start, b, 0, true);
    forall x | x < start || start as int + HEAP_MAX_SIZE + OVERHEAD <= x
      ensures Load(InitMemory(m, start), x) == Load(m, x)
    {
      assert Load(InitMemory(m, start), x) == Load(m1, x);
    }
  }

  // ------------------------------------------------------------------
  // kmalloc
  // ------------------------------------------------------------------

  /** Memory after the allocation from block `k`, sound or not. */
  function AllocMemory(m: Memory, a: uint32, size: uint32, request: uint32): Memory {
    if size == request then Unlink(UpdateBlock(m, a, size, true), a) else SplitMemory(m, a, size, request)
  }

  /** The pointer an allocation from the block at `a` returns. */
  function AllocResult(a: uint32, size: uint32, request: uint32): uint32 {
    Add(if size == request then a else CarvedAddr(a, size, request), HEADER)
  }

  /** An allocation leaves a heap exactly when it is sound. */
  lemma AllocFit(m: Memory, start: int, bs: seq<Block>, k: nat, request: uint32)
    requires Heap(m, start, bs) && k < |bs| && Fits(bs[k], request) && request % 4 == 0 &&
             0 <= Addr(start, bs, k) < TWO32
    ensures var m' := AllocMemory(m, Addr(start, bs, k), bs[k].size, request);
            if AllocSound(start, bs, k, request) then
              Heap(m', start, Allocated(start, bs, k, request)) && KeepsLive(m, m', start, bs) &&
                KeepsOutside(m, m', start)
            else
              NoHeap(m', start)
  {
    if bs[k].size == request {
      ExactFit(m, start, bs, k);
    } else {
      SplitFit(m, start, bs, k, request);
    }
  }

  /** Memory after `kmalloc(size)`. */
  function MallocMemory(m: Memory, start: uint32, bs: seq<Block>, size: uint32): Memory
    requires Tiled(start, bs)
  {
    var k := Best(bs, RoundUp4(size));
    if size == 0 || k < 0 then m
    else
      AddrBounds(start, bs, k);
      AllocMemory(m, Addr(start, bs, k), bs[k].size, RoundUp4(size))
  }

  /** A request leaves the blocks of the abstract call, or no heap. */
  lemma MallocFit(m: Memory, start: uint32, bs: seq<Block>, size: uint32, repaired: bool, quiet: bool)
    requires Heap(m, start, bs)
    ensures var m', n := MallocMemory(m, start, bs, size), Next(start, bs, Malloc(size), repaired, quiet);
            if n.Some? then Heap(m', start, n.value) && KeepsLive(m, m', start, bs) && KeepsOutside(m, m', start)
            else NoHeap(m', start)
  {
    var k := Best(bs, RoundUp4(size));
    if size != 0 && k >= 0 {
      AddrBounds(start, bs, k);
      RoundUp4Value(size);
      AllocFit(m, start, bs, k, RoundUp4(size));
    }
  }

  // ------------------------------------------------------------------
  // kfree
  // ------------------------------------------------------------------

  /** The block `b` at `a` is marked free and its payload may have changed. */
  ghost predicate Marked(m: Memory, m': Memory, a: int, b: Block) {
    var t := a + HEADER + b.size;
    && Load(m', a + USED) == 0 && Load(m', t + 4) == 0
    && forall x {:trigger Load(m', x)} :: x != a + USED && x != t + 4 && !(a + HEADER <= x < t) ==>
       Load(m', x) == Load(m, x)
  }

  lemma MarkedByWrites(m: Memory, m1: Memory, m2: Memory, a: int, b: Block)
    requires Zeroed(m, m1, a + HEADER, b.size) && a % 4 == 0
    requires m2 == m1[a + USED := 0][a + HEADER + b.size + 4 := 0]
    ensures Marked(m, m2, a, b)
    ensures forall x {:trigger Load(m2, x)} :: a + HEADER <= x < a + HEADER + b.size && x % 4 == 0 ==> Load(m2, x) == 0
  {
    forall x | x != a + USED && x != a + HEADER + b.size + 4
      ensures Load(m2, x) == Load(m1, x)
    {
    }
  }

  /** Memory after the block at `f` has been cleared and marked free. */
  function MarkFree(m: Memory, f: uint32): Memory {
    var size := Load(m, f);
    ZeroWords(m, f + HEADER, size)[f + USED := 0][TrailerOf(f, size) + 4 := 0]
  }

  lemma HeapBlock(m: Memory, start: uint32, bs: seq<Block>, i: nat)
    requires Heap(m, start, bs) && i < |bs|
    ensures var a := Addr(start, bs, i);
            && start <= a && a + bs[i].size + OVERHEAD < TWO32 && a % 4 == 0
            && Load(m, a) == bs[i].size && bs[i].size % 4 == 0
  {
    SegAt(m, start, bs, i, true);
    AddrBounds(start, bs, i);
    AlignedAddr(m, start, bs, i);
  }

  lemma MarkFreeMarks(m: Memory, start: uint32, bs: seq<Block>, i: nat, f: uint32)
    requires Heap(m, start, bs) && i < |bs| && f == Addr(start, bs, i)
    ensures Marked(m, MarkFree(m, f), f, bs[i])
    ensures forall x {:trigger InPayload(start, bs, i, x)} :: InPayload(start, bs, i, x) && x % 4 == 0 ==>
              Load(MarkFree(m, f), x) == 0
  {
    HeapBlock(m, start, bs, i);
    ZeroWordsClears(m, f + HEADER, bs[i].size);
    MarkedByWrites(m, ZeroWords(m, f + HEADER, bs[i].size), MarkFree(m, f), f, bs[i]);
  }

  /** Memory after the block at `a` has been put into the free list behind its member at `last`. */
  function LinkBehind(m: Memory, a: uint32, last: uint32): Memory {
    var m1 := m[a + NEXT := Load(m, last + NEXT)];
    m1[a + PREV := last][last + NEXT := a]
  }

  lemma LinkWrites(m: Memory, m1: Memory, a: uint32, b: Block, last: uint32)
    requires Marked(m, m1, a, b) && (last == a || last as int + OVERHEAD <= a)
    ensures FreeWrites(m, LinkBehind(m1, a, last), a, b, last)
    ensures forall x {:trigger Load(m1, x)} ::
              a + HEADER <= x < a + HEADER + b.size ==> Load(LinkBehind(m1, a, last), x) == Load(m1, x)
  {
    assert last != a ==> Load(m1, last + NEXT) == Load(m, last + NEXT);
    forall x | x != a + USED && x != a + NEXT && x != a + PREV && x != last + NEXT
      ensures Load(LinkBehind(m1, a, last), x) == Load(m1, x)
    {
    }
  }

  /** Where the walk of a release has last seen a member of the free list when it reaches block `j`. */
  function LastSeen(start: int, bs: seq<Block>, j: nat): int
    requires j <= |bs|
  {
    if j == 0 then start else LastLink(start, bs[..j])
  }

  lemma LastSeenRange(start: int, bs: seq<Block>, i: nat)
    requires Tiled(start, bs) && i < |bs|
    ensures 0 <= Addr(start, bs, i) < TWO32 && 0 <= LastSeen(start, bs, i) < TWO32
    ensures i == 0 ==> LastSeen(start, bs, i) == Addr(start, bs, i) == start
    ensures i > 0 ==> LastSeen(start, bs, i) + OVERHEAD <= Addr(start, bs, i)
  {
    AddrBounds(start, bs, i);
    if i > 0 {
      LastLinkRange(start, bs[..i]);
    } else {
      assert bs[..0] == [];
    }
  }

  /** Memory after block `i` has been cleared, marked free and linked, before it is coalesced. */
  function Linked(m: Memory, start: uint32, bs: seq<Block>, i: nat): Memory
    requires Tiled(start, bs) && i < |bs|
  {
    LastSeenRange(start, bs, i);
    LinkBehind(MarkFree(m, Addr(start, bs, i)), Addr(start, bs, i), LastSeen(start, bs, i))
  }

  /** Memory after block `i` has been released. */
  function FreeMemory(m: Memory, start: uint32, bs: seq<Block>, i: nat, repaired: bool): Memory
    requires Tiled(start, bs) && i < |bs|
  {
    LastSeenRange(start, bs, i);
    Coalesce(Linked(m, start, bs, i), Addr(start, bs, i), repaired)
  }

  lemma LinkedWrites(m: Memory, start: uint32, bs: seq<Block>, i: nat, f: uint32)
    requires Heap(m, start, bs) && i < |bs| && f == Addr(start, bs, i)
    ensures FreeWrites(m, Linked(m, start, bs, i), f, bs[i], LastSeen(start, bs, i))
    ensures forall x {:trigger InPayload(start, bs, i, x)} ::
              InPayload(start, bs, i, x) && x % 4 == 0 ==> Load(Linked(m, start, bs, i), x) == 0
  {
    LastSeenRange(start, bs, i);
    MarkFreeMarks(m, start, bs, i, f);
    LinkWrites(m, MarkFree(m, f), f, bs[i], LastSeen(start, bs, i));
    forall x | InPayload(start, bs, i, x) && x % 4 == 0
      ensures Load(Linked(m, start, bs, i), x) == 0
    {
      assert Load(MarkFree(m, f), x) == 0;
    }
  }

  /** The release of the first block finds no free block below the heap. */
  predicate QuietRelease(m: Memory, start: uint32, bs: seq<Block>)
    requires Tiled(start, bs)
  {
    var m1 := Linked(m, start, bs, 0);
    !SeemsFree(AbsorbRight(m1, start), PrevHeader(m1, start))
  }

  /** What the release of block `i` has done to the heap. */
  ghost predicate Returned(m: Memory, m': Memory, start: uint32, bs: seq<Block>, i: nat, repaired: bool, quiet: bool)
    requires i < |bs| && Tiled(start, bs)
  {
    if ReleaseSound(bs, i, repaired, quiet) then
      && Heap(m', start, Released(start, bs, i)) && KeepsOthers(m, m', start, bs, i)
      && forall x {:trigger InPayload(start, bs, i, x)} :: InPayload(start, bs, i, x) && x % 4 == 0 ==> Load(m', x) == 0
    else if i > 0 || quiet then
      NoHeap(m', start)
    else
      PlainBelow(m, start, repaired) ==> !KeepsOutside(m, m', start)
  }

  /**
   * A release of the first block that finds a free block below the heap, clear of it, writes outside the heap. Any
   * other release leaves a heap exactly when it is sound, with the payload cleared and the other live ones untouched.
   */
  lemma ReleaseFit(m: Memory, start: uint32, bs: seq<Block>, i: nat, repaired: bool, quiet: bool)
    requires Heap(m, start, bs) && i < |bs| && bs[i].used && (i == 0 ==> quiet == QuietRelease(m, start, bs))
    ensures Returned(m, FreeMemory(m, start, bs, i, repaired), start, bs, i, repaired, quiet)
  {
    LastSeenRange(start, bs, i);
    var f, m1 := Addr(start, bs, i), Linked(m, start, bs, i);
    LinkedWrites(m, start, bs, i, f);
    if i == 0 {
      ReleaseFirst(m, m1, start, bs, repaired);
    } else {
      ReleaseLater(m, m1, start, bs, i, f, LastSeen(start, bs, i), repaired, quiet);
    }
  }
}
