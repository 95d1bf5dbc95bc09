/** Where kernel/kheap.c leaves memory that is no longer a heap. */
module HeapFaults {
  import opened Words
  import opened HeapBlocks
  import opened HeapMemory
  import opened HeapOps

  // ------------------------------------------------------------------
  // What memory tells about a heap laid out in it
  // ------------------------------------------------------------------

  /** The tags of block `j` show its size, or one no block can have, and its flag in one of their two copies. */
  ghost predicate TagsKnown(m: Memory, start: int, bs: seq<Block>, j: nat)
    requires j < |bs|
  {
    var a := Addr(start, bs, j);
    && (Load(m, a) == bs[j].size || Load(m, a) == 0 || Load(m, a) > HEAP_MAX_SIZE)
    && (Load(m, a + USED) == Flag(bs[j].used) || Load(m, a + HEADER + bs[j].size + 4) == Flag(bs[j].used))
  }

  /** Any heap in a memory whose tags are known so far has the same blocks so far. */
  lemma {:induction false} SameTags(m: Memory, m': Memory, start: int, bs: seq<Block>, bs': seq<Block>, k: nat)
    requires Heap(m, start, bs) && Heap(m', start, bs') && k <= |bs|
    requires forall j: nat :: j < k ==> TagsKnown(m', start, bs, j)
    ensures k <= |bs'| && Addr(start, bs', k) == Addr(start, bs, k)
    ensures forall j :: 0 <= j < k ==> bs'[j].size == bs[j].size && bs'[j].used == bs[j].used
  {
    if k > 0 {
      SameTags(m, m', start, bs, bs', k - 1);
      AddrBounds(start, bs, k - 1);
      assert bs'[..|bs'|] == bs';
      assert TagsKnown(m', start, bs, k - 1);
      SameTag(m', start, bs, bs', k - 1);
      AddrNext(start, bs, k - 1);
      AddrNext(start, bs', k - 1);
    } else {
      assert bs[..0] == bs'[..0];
    }
  }

  lemma SameTag(m': Memory, start: int, bs: seq<Block>, bs': seq<Block>, j: nat)
    requires Heap(m', start, bs') && j < |bs| && j < |bs'| && Addr(start, bs', j) == Addr(start, bs, j)
    requires TagsKnown(m', start, bs, j)
    ensures bs'[j].size == bs[j].size && bs'[j].used == bs[j].used
  {
    SegAt(m', start, bs', j, true);
    AddrBounds(start, bs', j);
  }

  lemma {:induction false} SameLast(start: int, bs: seq<Block>, bs': seq<Block>, k: nat)
    requires 0 < k <= |bs| && k <= |bs'|
    requires forall j :: 0 <= j < k ==> bs'[j].size == bs[j].size && bs'[j].used == bs[j].used
    ensures LastLink(start, bs'[..k]) == LastLink(start, bs[..k])
  {
    var l, l' := bs[..k], bs'[..k];
    assert l[..k - 1] == bs[..k - 1] && l'[..k - 1] == bs'[..k - 1];
    SameAddr(start, bs, bs', k - 1);
    if k > 1 {
      SameLast(start, bs, bs', k - 1);
    }
  }

  lemma {:induction false} SameAddr(start: int, bs: seq<Block>, bs': seq<Block>, k: nat)
    requires k <= |bs| && k <= |bs'|
    requires forall j :: 0 <= j < k ==> bs'[j].size == bs[j].size
    ensures Addr(start, bs', k) == Addr(start, bs, k)
  {
    if k > 0 {
      SameAddr(start, bs, bs', k - 1);
      AddrNext(start, bs, k - 1);
      AddrNext(start, bs', k - 1);
    } else {
      assert bs[..0] == bs'[..0];
    }
  }

  /** In a heap the last member of the free list before a block points to it exactly when it is free. */
  lemma PointedAtIsFree(m: Memory, start: int, bs: seq<Block>, k: nat)
    requires Heap(m, start, bs) && 0 < k < |bs|
    requires Load(m, LastLink(start, bs[..k]) + NEXT) == Addr(start, bs, k)
    ensures !bs[k].used
  {
    var l, r := bs[..k], bs[k..];
    var a := Addr(start, bs, k);
    assert bs == l + r;
    SegConcat(m, start, l, r, 0, true);
    LastLinkPoints(m, start, l, FirstFree(a, r, 0));
    if bs[k].used {
      AddrBounds(start, bs, k);
      FirstFreeRange(a + bs[k].size + OVERHEAD, r[1..]);
    }
  }

  /** Two heaps whose headers agree as far as block `k` of the first have block `k` at the same address. */
  lemma {:induction false} SamePlace(m: Memory, m': Memory, start: int, bs: seq<Block>, bs': seq<Block>, k: nat)
    requires Heap(m, start, bs) && Heap(m', start, bs') && k < |bs|
    requires forall j: nat :: j < k ==> Load(m', Addr(start, bs, j)) == bs[j].size
    ensures k < |bs'| && Addr(start, bs', k) == Addr(start, bs, k)
  {
    if k > 0 {
      SamePlace(m, m', start, bs, bs', k - 1);
      SegAt(m', start, bs', k - 1, true);
      AddrNext(start, bs, k - 1);
      AddrNext(start, bs', k - 1);
      AddrBounds(start, bs, k);
      assert bs'[..|bs'|] == bs';
    } else {
      assert bs[..0] == bs'[..0];
    }
  }

  /** No block of a heap has a size of zero, or one larger than the heap. */
  lemma BadSize(m: Memory, m': Memory, start: int, bs: seq<Block>, bs': seq<Block>, k: nat)
    requires Heap(m, start, bs) && k < |bs|
    requires forall j: nat :: j < k ==> Load(m', Addr(start, bs, j)) == bs[j].size
    requires Load(m', Addr(start, bs, k)) == 0 || Load(m', Addr(start, bs, k)) > HEAP_MAX_SIZE
    ensures !Heap(m', start, bs')
  {
    if Heap(m', start, bs') {
      SamePlace(m, m', start, bs, bs', k);
      AddrBounds(start, bs', k);
      SegAt(m', start, bs', k, true);
    }
  }

  /** Header and trailer of a block of a heap agree. */
  lemma BadTrailer(m: Memory, m': Memory, start: int, bs: seq<Block>, bs': seq<Block>, k: nat)
    requires Heap(m, start, bs) && k < |bs|
    requires forall j: nat :: j < k ==> Load(m', Addr(start, bs, j)) == bs[j].size
    requires var s := Load(m', Addr(start, bs, k)); Load(m', Addr(start, bs, k) + HEADER + s) != s
    ensures !Heap(m', start, bs')
  {
    if Heap(m', start, bs') {
      SamePlace(m, m', start, bs, bs', k);
      SegAt(m', start, bs', k, true);
    }
  }

  // ------------------------------------------------------------------
  // An exact fit with a stale back link
  // ------------------------------------------------------------------

  /** Memory after `heap_remove_free_block` of the block at `a`. */
  function Unlink(m: Memory, a: int): Memory {
    var prev := Load(m, a + PREV);
    var m1 := if prev != 0 then m[prev + NEXT := Load(m, a + NEXT)] else m;
    var next := Load(m1, a + NEXT);
    if next != 0 then m1[next + PREV := Load(m1, a + PREV)] else m1
  }

  /** What unlinking the block at `a` writes when its back link is `p` and its successor in the free list is at `n`. */
  ghost predicate Unlinked(m: Memory, m': Memory, a: int, p: int, n: int) {
    && (forall x {:trigger Load(m', x)} :: !(p != 0 && x == p + NEXT) && !(n != 0 && x == n + PREV) ==>
       Load(m', x) == Load(m, x))
    && (p != 0 && p + NEXT != n + PREV ==> Load(m', p + NEXT) == n)
    && (n != 0 && p + NEXT != a + PREV ==> Load(m', n + PREV) == p)
  }

  lemma UnlinkWrites(m: Memory, a: int)
    requires Load(m, a + NEXT) == 0 || a + OVERHEAD <= Load(m, a + NEXT)
    ensures Unlinked(m, Unlink(m, a), a, Load(m, a + PREV), Load(m, a + NEXT))
  {
  }

  /** The tags before the block still tell what they told. */
  lemma UnlinkKeepsTags(m: Memory, m1: Memory, m': Memory, start: int, bs: seq<Block>, k: nat, n: int, j: nat)
    requires Heap(m, start, bs) && j < k < |bs| && (n == 0 || Addr(start, bs, k) < n)
    requires Updated(m, m1, Addr(start, bs, k), bs[k].size, true)
    requires Unlinked(m1, m', Addr(start, bs, k), bs[k].prev, n)
    ensures TagsKnown(m', start, bs, j)
  {
    SegAt(m, start, bs, j, true);
    AddrOrder(start, bs, j, k);
    AddrBounds(start, bs, k);
  }

  /** The tags of the block itself tell that it is handed out. */
  lemma UnlinkedBlock(m: Memory, m1: Memory, m': Memory, start: int, b: Block, n: int, a: int, b': Block)
    requires Place(start) && start <= a && (n == 0 || a + b.size + OVERHEAD <= n) && 0 < b.size
    requires Updated(m, m1, a, b.size, true) && Unlinked(m1, m', a, b.prev, n)
    requires BlockAt(m', a, b') && b'.size <= HEAP_MAX_SIZE
    ensures b'.used
  {
    assert Load(m', a) == b.size;
  }

  /** The pointer to the block is still there. */
  lemma StillPointedAt(m: Memory, m1: Memory, m': Memory, start: int, bs: seq<Block>, k: nat, n: int)
    requires Heap(m, start, bs) && 0 < k < |bs| && !bs[k].used && (n == 0 || Addr(start, bs, k) < n)
    requires bs[k].prev != LastLink(start, bs[..k])
    requires Updated(m, m1, Addr(start, bs, k), bs[k].size, true)
    requires Unlinked(m1, m', Addr(start, bs, k), bs[k].prev, n)
    ensures Load(m', LastLink(start, bs[..k]) + NEXT) == Addr(start, bs, k)
  {
    var l, r := bs[..k], bs[k..];
    assert bs == l + r;
    SegConcat(m, start, l, r, 0, true);
    LastLinkPoints(m, start, l, Addr(start, bs, k));
    LastLinkRange(start, l);
  }

  /** An exact fit whose back link is not the true predecessor leaves that predecessor pointing to a used block. */
  lemma StaleBackLink(m: Memory, m1: Memory, m': Memory, start: int, bs: seq<Block>, k: nat, n: int, bs': seq<Block>)
    requires Heap(m, start, bs) && 0 < k < |bs| && !bs[k].used
    requires n == 0 || Addr(start, bs, k) + bs[k].size + OVERHEAD <= n
    requires bs[k].prev != LastLink(start, bs[..k])
    requires Updated(m, m1, Addr(start, bs, k), bs[k].size, true)
    requires Unlinked(m1, m', Addr(start, bs, k), bs[k].prev, n)
    ensures !Heap(m', start, bs')
  {
    if Heap(m', start, bs') {
      forall j: nat | j < k
        ensures TagsKnown(m', start, bs, j)
      {
        UnlinkKeepsTags(m, m1, m', start, bs, k, n, j);
      }
      SameTags(m, m', start, bs, bs', k);
      SameLast(start, bs, bs', k);
      AddrBounds(start, bs, k);
      assert bs'[..|bs'|] == bs';
      StillPointedAt(m, m1, m', start, bs, k, n);
      PointedAtIsFree(m', start, bs', k);
      SegAt(m', start, bs', k, true);
      AddrBounds(start, bs', k);
      SegAt(m, start, bs, k, true);
      UnlinkedBlock(m, m1, m', start, bs[k], n, Addr(start, bs, k), bs'[k]);
    }
  }

  // ------------------------------------------------------------------
  // A split with no room for the remaining block, or of a request rounded to zero
  // ------------------------------------------------------------------

  /** The addresses and sizes a split computes, in 32-bit arithmetic. */
  function CarvedAddr(a: uint32, size: uint32, request: uint32): uint32 {
    Sub(Sub(Add(Add(a, HEADER), size), HEADER), request)
  }

  function RemainingSize(size: uint32, request: uint32): uint32 {
    Sub(Sub(Sub(size, HEADER), request), TRAILER)
  }

  lemma SplitArithmetic(a: uint32, size: uint32, request: uint32)
    requires a as int + size + OVERHEAD <= TWO32 && request <= size
    ensures CarvedAddr(a, size, request) == a as int + size - request
    ensures RemainingSize(size, request) ==
            if size - request >= OVERHEAD then size - request - OVERHEAD else size as int - request - OVERHEAD + TWO32
    ensures OVERHEAD <= a && request < size ==>
              TrailerOf(a, RemainingSize(size, request)) == a as int + size - request - TRAILER
  {
  }

  /** Memory after the split of the block at `a`. */
  function SplitMemory(m: Memory, a: uint32, size: uint32, request: uint32): Memory {
    var m1 := UpdateBlock(m, a, RemainingSize(size, request), false);
    CreateBlock(m1, CarvedAddr(a, size, request), request, true, a, Load(m1, a + NEXT))
  }

  /** What a split leaves in the headers it touches, whether or not there was room for it. */
  lemma SplitHeaders(m: Memory, a: uint32, size: uint32, request: uint32)
    requires OVERHEAD <= a && a as int + size + OVERHEAD <= TWO32 && request + 4 <= size
    ensures var m' := SplitMemory(m, a, size, request); var d := size - request;
            && (forall x {:trigger Load(m', x)} :: x < a - 4 ==> Load(m', x) == Load(m, x))
            && Load(m', a) == (if d == 4 then 0 else RemainingSize(size, request))
            && Load(m', a + d) == request
  {
    SplitArithmetic(a, size, request);
    var c := CarvedAddr(a, size, request);
    assert TrailerOf(c, request) == c as int + HEADER + request;
  }

  lemma UnsoundSplit(m: Memory, start: int, bs: seq<Block>, k: nat, request: uint32, bs': seq<Block>)
    requires Heap(m, start, bs) && k < |bs| && request % 4 == 0 && request < bs[k].size
    requires request == 0 || bs[k].size <= request + OVERHEAD
    requires 0 <= Addr(start, bs, k) < TWO32
    ensures !Heap(SplitMemory(m, Addr(start, bs, k), bs[k].size, request), start, bs')
  {
    var a, size := Addr(start, bs, k), bs[k].size;
    var m' := SplitMemory(m, a, size, request);
    AddrBounds(start, bs, k);
    SegAt(m, start, bs, k, true);
    SplitHeaders(m, a, size, request);
    forall j: nat | j < k
      ensures Load(m', Addr(start, bs, j)) == bs[j].size
    {
      AddrOrder(start, bs, j, k);
      SegAt(m, start, bs, j, true);
    }
    if size - request <= OVERHEAD {
      BadSize(m, m', start, bs, bs', k);
    } else {
      EmptyCarved(m, m', start, bs, bs', k);
    }
  }

  /** A block of size zero carved off the end of block `k`. */
  lemma EmptyCarved(m: Memory, m': Memory, start: int, bs: seq<Block>, bs': seq<Block>, k: nat)
    requires Heap(m, start, bs) && k < |bs|
    requires forall j: nat :: j < k ==> Load(m', Addr(start, bs, j)) == bs[j].size
    requires bs[k].size > OVERHEAD && Load(m', Addr(start, bs, k)) == bs[k].size - OVERHEAD
    requires Load(m', Addr(start, bs, k) + bs[k].size) == 0
    ensures !Heap(m', start, bs')
  {
    if Heap(m', start, bs') {
      SamePlace(m, m', start, bs, bs', k);
      SegAt(m', start, bs', k, true);
      AddrNext(start, bs', k);
      AddrBounds(start, bs, k);
      assert bs'[..|bs'|] == bs';
      SegAt(m', start, bs', k + 1, true);
    }
  }

  // ------------------------------------------------------------------
  // kmalloc: exactly when it leaves a heap
  // ------------------------------------------------------------------

  /** No sequence of blocks describes what is in memory. */
  ghost predicate NoHeap(m: Memory, start: int) {
    forall bs :: !Heap(m, start, bs)
  }

  lemma TakenAsIntended(m: Memory, m1: Memory, m': Memory, start: int, bs: seq<Block>, k: nat, n: int)
    requires Heap(m, start, bs) && k < |bs| && !bs[k].used && BackLinkRight(start, bs, k)
    requires n == 0 || Addr(start, bs, k) + bs[k].size + OVERHEAD <= n
    requires Updated(m, m1, Addr(start, bs, k), bs[k].size, true)
    requires Unlinked(m1, m', Addr(start, bs, k), bs[k].prev, n)
    ensures TakeWrites(m, m', Addr(start, bs, k), bs[k], n)
  {
    if k > 0 {
      LastLinkRange(start, bs[..k]);
    } else {
      assert bs[..0] == [];
    }
  }

  /** Handing out a whole block writes no live payload and nothing outside the heap. */
  lemma TakeKeeps(m: Memory, m': Memory, start: int, bs: seq<Block>, k: nat)
    requires Heap(m, start, bs) && k < |bs| && !bs[k].used && BackLinkRight(start, bs, k)
    requires TakeWrites(m, m', Addr(start, bs, k), bs[k], Load(m, Addr(start, bs, k) + NEXT))
    ensures KeepsLive(m, m', start, bs) && KeepsOutside(m, m', start)
  {
    var a, b := Addr(start, bs, k), bs[k];
    var n := Load(m, a + NEXT);
    var i := BackBlock(m, start, bs, k);
    AddrBounds(start, bs, k);
    AddrBounds(start, bs, i);
    if n != 0 {
      var j := NextBlock(m, start, bs, k);
      AddrBounds(start, bs, j);
      NotLive(start, bs, j, n + PREV);
    }
    NotLive(start, bs, i, Addr(start, bs, i) + NEXT);
    NotLive(start, bs, k, a);
    NotLive(start, bs, k, a + USED);
    NotLive(start, bs, k, a + HEADER + b.size);
    NotLive(start, bs, k, a + HEADER + b.size + 4);
  }

  lemma BackBlock(m: Memory, start: int, bs: seq<Block>, k: nat) returns (i: nat)
    requires Heap(m, start, bs) && k < |bs| && BackLinkRight(start, bs, k)
    ensures i < |bs| && (bs[k].prev == 0 || bs[k].prev == Addr(start, bs, i))
  {
    if k == 0 {
      i := 0;
      assert bs[..0] == [];
    } else {
      i := LastLinkIsBlock(start, bs[..k]);
      assert bs[..k][..i] == bs[..i];
    }
  }

  lemma NextBlock(m: Memory, start: int, bs: seq<Block>, k: nat) returns (j: nat)
    requires Heap(m, start, bs) && k < |bs| && !bs[k].used && Load(m, Addr(start, bs, k) + NEXT) != 0
    ensures k < j < |bs| && Load(m, Addr(start, bs, k) + NEXT) == Addr(start, bs, j)
  {
    var rest := Addr(start, bs, k) + bs[k].size + OVERHEAD;
    SegAt(m, start, bs, k, true);
    j := FirstFreeIsBlock(rest, bs[k + 1..]);
    SpanConcat(bs[..k + 1], bs[k + 1..][..j]);
    assert bs[..k + 1] + bs[k + 1..][..j] == bs[..k + 1 + j];
    AddrNext(start, bs, k);
    j := k + 1 + j;
  }

  /** An exact fit leaves a heap exactly when the block's back link is right. */
  lemma ExactFit(m: Memory, start: int, bs: seq<Block>, k: nat)
    requires Heap(m, start, bs) && k < |bs| && !bs[k].used && 0 <= Addr(start, bs, k) < TWO32
    ensures var m' := Unlink(UpdateBlock(m, Addr(start, bs, k), bs[k].size, true), Addr(start, bs, k));
            && (BackLinkRight(start, bs, k) ==>
                  Heap(m', start, TakeWhole(bs, k)) && KeepsLive(m, m', start, bs) && KeepsOutside(m, m', start))
            && (!BackLinkRight(start, bs, k) ==> NoHeap(m', start))
  {
    var a, b := Addr(start, bs, k), bs[k];
    var m1 := UpdateBlock(m, a, b.size, true);
    var n := Load(m, a + NEXT);
    AddrBounds(start, bs, k);
    UpdateBlockWrites(m, a, b.size, true);
    SegAt(m, start, bs, k, true);
    FirstFreeRange(a + b.size + OVERHEAD, bs[k + 1..]);
    assert Load(m1, a + NEXT) == n && Load(m1, a + PREV) == b.prev;
    UnlinkWrites(m1, a);
    var m' := Unlink(m1, a);
    if BackLinkRight(start, bs, k) {
      TakenAsIntended(m, m1, m', start, bs, k, n);
      TakeInMemory(m, m', start, bs, k);
      TakeKeeps(m, m', start, bs, k);
    } else {
      forall bs'
        ensures !Heap(m', start, bs')
      {
        StaleBackLink(m, m1, m', start, bs, k, n, bs');
      }
    }
  }

  lemma SplitAsIntended(m: Memory, a: uint32, b: Block, request: uint32)
    requires a as int + b.size + OVERHEAD <= TWO32 && OVERHEAD <= a && request as int + OVERHEAD < b.size
    ensures SplitWrites(m, UpdateBlock(m, a, b.size - request - OVERHEAD, false), SplitMemory(m, a, b.size, request),
                        a, b, request)
  {
    var p := Pieces(a, b, request);
    var m1 := UpdateBlock(m, a, p[0].size, false);
    assert CarvedAddr(a, b.size, request) == a as int + p[0].size + OVERHEAD &&
      RemainingSize(b.size, request) == p[0].size by {
      SplitArithmetic(a, b.size, request);
    }
    UpdateBlockWrites(m, a, p[0].size, false);
    CreateBlockWrites(m1, CarvedAddr(a, b.size, request), p[1], Load(m1, a + NEXT));
  }

  /** A split leaves a heap exactly when both blocks it makes are nonempty. */
  lemma SplitFit(m: Memory, start: int, bs: seq<Block>, k: nat, request: uint32)
    requires Heap(m, start, bs) && k < |bs| && !bs[k].used && 0 <= Addr(start, bs, k) < TWO32
    requires request % 4 == 0 && request < bs[k].size
    ensures var m' := SplitMemory(m, Addr(start, bs, k), bs[k].size, request);
            if 0 < request && request as int + OVERHEAD < bs[k].size then
              Heap(m', start, Split(start, bs, k, request)) && KeepsLive(m, m', start, bs) && KeepsOutside(m, m', start)
            else
              NoHeap(m', start)
  {
    var a, b := Addr(start, bs, k), bs[k];
    var m' := SplitMemory(m, a, b.size, request);
    if 0 < request && request as int + OVERHEAD < b.size {
      AddrBounds(start, bs, k);
      SplitAsIntended(m, a, b, request);
      SplitInMemory(m, UpdateBlock(m, a, b.size - request - OVERHEAD, false), m', start, bs, k, request);
    } else {
      assert NoHeap(m', start) by {
        forall bs'
          ensures !Heap(m', start, bs')
        {
          UnsoundSplit(m, start, bs, k, request, bs');
        }
      }
    }
  }
}
