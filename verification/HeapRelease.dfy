/** What a release does to memory, and exactly when a heap is left, kernel/kheap.c. */
module HeapRelease {
  import opened Words
  import opened HeapBlocks
  import opened HeapMemory
  import opened HeapOps
  import opened HeapFaults
  import opened Unaligned

  // ------------------------------------------------------------------
  // heap_coalesce_free_block
  // ------------------------------------------------------------------

  /** Address of the block after the one at `f`, from the size in its header. */
  function NextHeader(m: Memory, f: uint32): uint32 {
    Add(Add(Add(f, HEADER), Load(m, f)), TRAILER)
  }

  /** Address of the block before the one at `f`, from the size in that block's trailer. */
  function PrevHeader(m: Memory, f: uint32): uint32 {
    Sub(Sub(Sub(f, TRAILER), Load(m, Sub(f, TRAILER))), HEADER)
  }

  predicate FreeAt(m: Memory, a: uint32) {
    Load(m, a) != 0 && Load(m, a + USED) == 0
  }

  /** The block at `f` absorbs the one after it, if that is free. */
  function AbsorbRight(m: Memory, f: uint32): Memory {
    var next := NextHeader(m, f);
    var trailer := TrailerOf(next, Load(m, next));
    if FreeAt(m, next) then
      var size := Add(Add(Add(Load(m, f), TRAILER), HEADER), Load(m, next));
      m[f + NEXT := Load(m, next + NEXT)][f + SIZE := size][trailer := size][trailer + 4 := 0]
    else m
  }

  /**
   * What the code takes for the header of a free block at `a`. Before the first block this may be any address, and
   * there is no such header.
   */
  predicate SeemsFree(m: Memory, a: uint32) {
    Peek(m, a) != 0 && Peek(m, Add(a, USED)) == 0
  }

  /** The block at `prev`, if it is free, absorbs the one at `f`; the trailer written is at `trailer`. */
  function AbsorbLeft(m: Memory, f: uint32, prev: uint32, trailer: uint32): Memory {
    if SeemsFree(m, prev) then
      var size := Add(Add(Add(Peek(m, prev), TRAILER), HEADER), Load(m, f));
      var m1 := Poke(m, prev, size);
      var m2 := Poke(m1, Add(prev, NEXT), Load(m1, f + NEXT));
      Poke(Poke(m2, trailer, size), Add(trailer, 4), 0)
    else m
  }

  /** The trailer the left merge writes: as the code has it, the one after the following block's header. */
  function LeftTrailer(m: Memory, f: uint32): uint32 {
    TrailerOf(NextHeader(m, f), Load(m, NextHeader(m, f)))
  }

  /** The trailer a repaired left merge would write: the merged block's own. */
  function OwnTrailer(m: Memory, f: uint32, prev: uint32): uint32 {
    TrailerOf(prev, Add(Add(Add(Peek(m, prev), TRAILER), HEADER), Load(m, f)))
  }

  function Coalesce(m: Memory, f: uint32, repaired: bool): Memory {
    var m1 := AbsorbRight(m, f);
    var prev := PrevHeader(m, f);
    AbsorbLeft(m1, f, prev, if repaired then OwnTrailer(m1, f, prev) else LeftTrailer(m, f))
  }

  // ------------------------------------------------------------------
  // What may be written
  // ------------------------------------------------------------------

  /** No byte of any payload, live or free, and nothing outside the heap is written. */
  ghost predicate KeepsPayloads(m: Memory, m': Memory, start: int, bs: seq<Block>) {
    && KeepsOutside(m, m', start)
    && forall j: nat, x {:trigger InPayload(start, bs, j, x)} :: j < |bs| && InPayload(start, bs, j, x) ==>
       Load(m', x) == Load(m, x)
  }

  /** A word of a tag lies in no payload. */
  lemma TagNotPayload(start: int, bs: seq<Block>, k: nat, x: int)
    requires k < |bs|
    requires
      || Addr(start, bs, k) <= x < Addr(start, bs, k) + HEADER
      || Addr(start, bs, k) + HEADER + bs[k].size <= x < Addr(start, bs, k) + OVERHEAD + bs[k].size
    ensures forall j: nat :: j < |bs| ==> !InPayload(start, bs, j, x)
  {
    forall j: nat | j < |bs|
      ensures !InPayload(start, bs, j, x)
    {
      if j < k {
        AddrOrder(start, bs, j, k);
      } else if k < j {
        AddrOrder(start, bs, k, j);
      }
    }
  }

  /** Writes to the header of one block and the trailer of another. */
  lemma TagWritesKeepPayloads(m: Memory, m': Memory, start: int, bs: seq<Block>, p: nat, q: nat, size: uint32,
                              next: uint32, t: int)
    requires p < |bs| && q < |bs| && Span(bs) == HEAP_MAX_SIZE + OVERHEAD
    requires t == Addr(start, bs, q) + HEADER + bs[q].size
    requires MergeWrites(m, m', Addr(start, bs, p), size, next, t)
    ensures KeepsPayloads(m, m', start, bs)
  {
    var a := Addr(start, bs, p);
    AddrBounds(start, bs, p);
    AddrBounds(start, bs, q);
    TagNotPayload(start, bs, p, a);
    TagNotPayload(start, bs, p, a + NEXT);
    TagNotPayload(start, bs, q, t);
    TagNotPayload(start, bs, q, t + 4);
  }

  // ------------------------------------------------------------------
  // Each half of coalescing
  // ------------------------------------------------------------------

  /** What the tags say to a block that looks right. */
  lemma LooksRight(m: Memory, start: int, bs: seq<Block>, i: nat, f: uint32)
    requires Heap(m, start, bs) && i < |bs| && f == Addr(start, bs, i)
    ensures NextHeader(m, f) == Addr(start, bs, i + 1)
    ensures FreeAt(m, NextHeader(m, f)) <==> RightFree(bs, i)
    ensures i + 1 < |bs| ==> Load(m, NextHeader(m, f)) == bs[i + 1].size
    ensures i + 1 == |bs| ==> Load(m, NextHeader(m, f)) == 0
  {
    AddrBounds(start, bs, i);
    AddrNext(start, bs, i);
    SegAt(m, start, bs, i, true);
    if i + 1 < |bs| {
      SegAt(m, start, bs, i + 1, true);
    } else {
      assert bs[..i + 1] == bs;
    }
  }

  /** What the tags say to a block that looks left. */
  lemma LooksLeft(m: Memory, start: int, bs: seq<Block>, i: nat, f: uint32)
    requires Heap(m, start, bs) && 0 < i < |bs| && f == Addr(start, bs, i)
    ensures PrevHeader(m, f) == Addr(start, bs, i - 1)
  {
    AddrBounds(start, bs, i);
    AddrBounds(start, bs, i - 1);
    AddrNext(start, bs, i - 1);
    SegAt(m, start, bs, i - 1, true);
  }

  /** What the header of the block before a block says. */
  lemma HeaderBefore(m: Memory, start: int, bs: seq<Block>, i: nat, prev: uint32)
    requires Heap(m, start, bs) && 0 < i < |bs| && prev == Addr(start, bs, i - 1)
    ensures prev % 4 == 0 && prev as int + OVERHEAD <= Addr(start, bs, i)
    ensures SeemsFree(m, prev) <==> LeftFree(bs, i)
    ensures Peek(m, prev) == Load(m, prev) == bs[i - 1].size
  {
    AddrBounds(start, bs, i - 1);
    AddrNext(start, bs, i - 1);
    SegAt(m, start, bs, i - 1, true);
    AlignedAddr(m, start, bs, i - 1);
  }

  lemma RightHalf(m: Memory, start: int, bs: seq<Block>, i: nat, f: uint32)
    requires Heap(m, start, bs) && i < |bs| && !bs[i].used && f == Addr(start, bs, i)
    ensures !RightFree(bs, i) ==> AbsorbRight(m, f) == m
    ensures RightFree(bs, i) ==>
              && bs[i].size as int + OVERHEAD + bs[i + 1].size <= HEAP_MAX_SIZE
              && Heap(AbsorbRight(m, f), start, Merge(bs, i))
              && KeepsPayloads(m, AbsorbRight(m, f), start, bs)
  {
    LooksRight(m, start, bs, i, f);
    if RightFree(bs, i) {
      PairFits(bs, i);
      var t := Addr(start, bs, i + 1) + HEADER + bs[i + 1].size;
      var size, next := bs[i].size + OVERHEAD + bs[i + 1].size, Load(m, Addr(start, bs, i + 1) + NEXT);
      assert MergeWrites(m, AbsorbRight(m, f), f, size, next, t) by {
        RightHalfWrites(m, start, bs, i, f);
      }
      assert Addr(start, bs, i + 1) == f + bs[i].size + OVERHEAD by {
        AddrNext(start, bs, i);
      }
      MergeInMemory(m, AbsorbRight(m, f), start, bs, i);
      TagWritesKeepPayloads(m, AbsorbRight(m, f), start, bs, i, i + 1, size, next, t);
    }
  }

  lemma RightHalfWrites(m: Memory, start: int, bs: seq<Block>, i: nat, f: uint32)
    requires Heap(m, start, bs) && i + 1 < |bs| && !bs[i + 1].used && f == Addr(start, bs, i)
    requires bs[i].size as int + OVERHEAD + bs[i + 1].size <= HEAP_MAX_SIZE
    ensures var c := Addr(start, bs, i + 1);
            MergeWrites(m, AbsorbRight(m, f), f, bs[i].size + OVERHEAD + bs[i + 1].size, Load(m, c + NEXT),
                        c + HEADER + bs[i + 1].size)
  {
    LooksRight(m, start, bs, i, f);
    AddrBounds(start, bs, i + 1);
    AddrNext(start, bs, i);
    SegAt(m, start, bs, i, true);
  }

  /** The writes of a left merge, wherever its trailer goes beyond the two blocks' headers. */
  lemma LeftWrites(m: Memory, f: uint32, prev: uint32, trailer: uint32, size: uint32)
    requires SeemsFree(m, prev) && prev as int + OVERHEAD <= f <= trailer && trailer as int + TRAILER <= TWO32
    requires prev % 4 == 0 && trailer % 4 == 0
    requires size == Load(m, prev) as int + OVERHEAD + Load(m, f)
    ensures MergeWrites(m, AbsorbLeft(m, f, prev, trailer), prev, size, Load(m, f + NEXT), trailer)
  {
  }

  lemma LeftHalf(m: Memory, start: int, bs: seq<Block>, i: nat, f: uint32, prev: uint32, trailer: uint32)
    requires Heap(m, start, bs) && 0 < i < |bs| && !bs[i].used && f == Addr(start, bs, i) &&
             prev == Addr(start, bs, i - 1)
    requires LeftFree(bs, i) ==> trailer == f as int + HEADER + bs[i].size
    ensures !LeftFree(bs, i) ==> AbsorbLeft(m, f, prev, trailer) == m
    ensures LeftFree(bs, i) ==>
              && bs[i - 1].size as int + OVERHEAD + bs[i].size <= HEAP_MAX_SIZE
              && Heap(AbsorbLeft(m, f, prev, trailer), start, Merge(bs, i - 1))
              && MergeWrites(m, AbsorbLeft(m, f, prev, trailer), prev, bs[i - 1].size + OVERHEAD + bs[i].size,
                             Load(m, f + NEXT), trailer)
  {
    if LeftFree(bs, i) {
      LeftHalfWrites(m, start, bs, i, f, prev, trailer);
      LeftHalfMerges(m, AbsorbLeft(m, f, prev, trailer), start, bs, i, f, prev, trailer);
    } else {
      HeaderBefore(m, start, bs, i, prev);
    }
  }

  lemma LeftHalfWrites(m: Memory, start: int, bs: seq<Block>, i: nat, f: uint32, prev: uint32, trailer: uint32)
    requires Heap(m, start, bs) && 0 < i < |bs| && f == Addr(start, bs, i) && prev == Addr(start, bs, i - 1)
    requires LeftFree(bs, i) && trailer == f as int + HEADER + bs[i].size
    ensures bs[i - 1].size as int + OVERHEAD + bs[i].size <= HEAP_MAX_SIZE
    ensures MergeWrites(m, AbsorbLeft(m, f, prev, trailer), prev, bs[i - 1].size + OVERHEAD + bs[i].size,
                        Load(m, f + NEXT), trailer)
  {
    HeaderBefore(m, start, bs, i, prev);
    PairFits(bs, i - 1);
    TrailerPlace(m, start, bs, i, f, trailer);
    LeftWrites(m, f, prev, trailer, bs[i - 1].size + OVERHEAD + bs[i].size);
  }

  lemma AlignedTrailer(a: uint32, size: uint32)
    requires a % 4 == 0 && size % 4 == 0 && a as int + HEADER + size < TWO32
    ensures TrailerOf(a, size) == a as int + HEADER + size && TrailerOf(a, size) % 4 == 0
  {
  }

  lemma TrailerPlace(m: Memory, start: int, bs: seq<Block>, i: nat, f: uint32, trailer: uint32)
    requires Heap(m, start, bs) && i < |bs| && f == Addr(start, bs, i) && trailer == f as int + HEADER + bs[i].size
    ensures f <= trailer && trailer as int + TRAILER <= TWO32 && trailer % 4 == 0 && Load(m, f) == bs[i].size
  {
    AddrBounds(start, bs, i);
    assert f % 4 == 0 by {
      AlignedAddr(m, start, bs, i);
    }
    assert Load(m, f) == bs[i].size && bs[i].size % 4 == 0 by {
      SegAt(m, start, bs, i, true);
    }
    AlignedTrailer(f, bs[i].size);
  }

  lemma LeftHalfMerges(m: Memory, m': Memory, start: int, bs: seq<Block>, i: nat, f: uint32, prev: uint32,
                       trailer: uint32)
    requires Heap(m, start, bs) && 0 < i < |bs| && !bs[i].used && f == Addr(start, bs, i) &&
             prev == Addr(start, bs, i - 1)
    requires LeftFree(bs, i) && trailer == f as int + HEADER + bs[i].size
    requires bs[i - 1].size as int + OVERHEAD + bs[i].size <= HEAP_MAX_SIZE
    requires MergeWrites(m, m', prev, bs[i - 1].size + OVERHEAD + bs[i].size, Load(m, f + NEXT), trailer)
    ensures Heap(m', start, Merge(bs, i - 1))
  {
    AddrNext(start, bs, i - 1);
    MergeInMemory(m, m', start, bs, i - 1);
  }

  // ------------------------------------------------------------------
  // Coalescing, exactly
  // ------------------------------------------------------------------

  /** The trailers the two forms of the left merge write, after a right merge. */
  lemma TrailersAgree(m: Memory, m1: Memory, start: int, bs: seq<Block>, bs1: seq<Block>, i: nat, f: uint32,
                      prev: uint32)
    requires Heap(m, start, bs) && Heap(m1, start, bs1) && 0 < i < |bs| && i < |bs1|
    requires f == Addr(start, bs, i) == Addr(start, bs1, i) && prev == Addr(start, bs1, i - 1)
    requires Span(bs1) < TWO32
    ensures bs1[i - 1].size as int + OVERHEAD + bs1[i].size < TWO32
    ensures OwnTrailer(m1, f, prev) == f as int + HEADER + bs1[i].size
    ensures RightFree(bs, i) && bs1[i].size == bs[i].size as int + OVERHEAD + bs[i + 1].size
            ==> LeftTrailer(m, f) == f as int + HEADER + bs1[i].size
  {
    OwnTrailerPlace(m1, start, bs1, i, f, prev);
    AddrBounds(start, bs1, i);
    LooksRight(m, start, bs, i, f);
    AddrNext(start, bs, i);
  }

  lemma OwnTrailerPlace(m: Memory, start: int, bs: seq<Block>, i: nat, f: uint32, prev: uint32)
    requires Heap(m, start, bs) && 0 < i < |bs| && f == Addr(start, bs, i) && prev == Addr(start, bs, i - 1)
    ensures bs[i - 1].size as int + OVERHEAD + bs[i].size < TWO32
    ensures OwnTrailer(m, f, prev) == f as int + HEADER + bs[i].size
  {
    HeaderBefore(m, start, bs, i, prev);
    SegAt(m, start, bs, i, true);
    AddrBounds(start, bs, i);
    AddrNext(start, bs, i - 1);
    PairFits(bs, i - 1);
  }

  /** Merging does not move the blocks up to the merged one. */
  lemma MergeAddr(start: int, bs: seq<Block>, i: nat, j: nat)
    requires i + 1 < |bs| && bs[i].size as int + OVERHEAD + bs[i + 1].size < TWO32 && j <= i
    ensures |Merge(bs, i)| == |bs| - 1 && Addr(start, Merge(bs, i), j) == Addr(start, bs, j)
    ensures Merge(bs, i)[i] == bs[i].(size := bs[i].size + OVERHEAD + bs[i + 1].size)
    ensures j < i ==> Merge(bs, i)[j] == bs[j]
  {
    assert Merge(bs, i)[..j] == bs[..j];
  }

  lemma CoalesceBoth(m: Memory, start: int, bs: seq<Block>, i: nat, f: uint32, repaired: bool)
    requires Heap(m, start, bs) && 0 < i < |bs| && !bs[i].used && f == Addr(start, bs, i) && RightFree(bs, i)
    ensures Heap(Coalesce(m, f, repaired), start, Coalesced(bs, i))
    ensures KeepsPayloads(m, Coalesce(m, f, repaired), start, bs)
  {
    RightHalf(m, start, bs, i, f);
    var m1, bs1 := AbsorbRight(m, f), Merge(bs, i);
    MergeAddr(start, bs, i, i);
    MergeAddr(start, bs, i, i - 1);
    LooksLeft(m, start, bs, i, f);
    var prev := PrevHeader(m, f);
    var t := if repaired then OwnTrailer(m1, f, prev) else LeftTrailer(m, f);
    TrailersAgree(m, m1, start, bs, bs1, i, f, prev);
    LeftHalf(m1, start, bs1, i, f, prev, t);
    if LeftFree(bs, i) {
      AddrNext(start, bs, i);
      TagWritesKeepPayloads(m1, AbsorbLeft(m1, f, prev, t), start, bs, i - 1, i + 1,
                            bs1[i - 1].size + OVERHEAD + bs1[i].size, Load(m1, f + NEXT), t);
    }
  }

  lemma CoalesceLeft(m: Memory, start: int, bs: seq<Block>, i: nat, f: uint32, repaired: bool)
    requires Heap(m, start, bs) && 0 < i < |bs| && !bs[i].used && f == Addr(start, bs, i) && !RightFree(bs, i)
    requires repaired || !LeftFree(bs, i)
    ensures Heap(Coalesce(m, f, repaired), start, Coalesced(bs, i))
    ensures KeepsPayloads(m, Coalesce(m, f, repaired), start, bs)
  {
    RightHalf(m, start, bs, i, f);
    LooksLeft(m, start, bs, i, f);
    var prev := PrevHeader(m, f);
    var t := if repaired then OwnTrailer(m, f, prev) else LeftTrailer(m, f);
    TrailersAgree(m, m, start, bs, bs, i, f, prev);
    LeftHalf(m, start, bs, i, f, prev, t);
    if LeftFree(bs, i) {
      TagWritesKeepPayloads(m, AbsorbLeft(m, f, prev, t), start, bs, i - 1, i,
                            bs[i - 1].size + OVERHEAD + bs[i].size, Load(m, f + NEXT), t);
    }
  }

  /** A left merge whose trailer goes beyond the merged block leaves that block with tags that disagree. */
  lemma WrongTrailer(m: Memory, m': Memory, start: int, bs: seq<Block>, i: nat, size: uint32, next: uint32, t: int,
                     bs': seq<Block>)
    requires Heap(m, start, bs) && i + 1 < |bs| && size == bs[i].size as int + OVERHEAD + bs[i + 1].size
    requires MergeWrites(m, m', Addr(start, bs, i), size, next, t) &&
             Addr(start, bs, i + 1) + HEADER + bs[i + 1].size + 4 < t
    ensures !Heap(m', start, bs')
  {
    AddrNext(start, bs, i);
    SegAt(m, start, bs, i + 1, true);
    forall j: nat | j < i
      ensures Load(m', Addr(start, bs, j)) == bs[j].size
    {
      AddrOrder(start, bs, j, i);
      SegAt(m, start, bs, j, true);
    }
    BadTrailer(m, m', start, bs, bs', i);
  }

  /** With only the left neighbour free, the code writes the following block's trailer instead of the merged block's. */
  lemma CoalesceLeftOnly(m: Memory, start: int, bs: seq<Block>, i: nat, f: uint32)
    requires Heap(m, start, bs) && 0 < i < |bs| && !bs[i].used && f == Addr(start, bs, i)
    requires !RightFree(bs, i) && LeftFree(bs, i)
    ensures NoHeap(Coalesce(m, f, false), start)
  {
    RightHalf(m, start, bs, i, f);
    LooksLeft(m, start, bs, i, f);
    var prev, t := PrevHeader(m, f), LeftTrailer(m, f);
    HeaderBefore(m, start, bs, i, prev);
    LeftOnlyTrailer(m, start, bs, i, f);
    PairFits(bs, i - 1);
    SegAt(m, start, bs, i, true);
    var size := bs[i - 1].size + OVERHEAD + bs[i].size;
    LeftWrites(m, f, prev, t, size);
    forall bs'
      ensures !Heap(AbsorbLeft(m, f, prev, t), start, bs')
    {
      WrongTrailer(m, AbsorbLeft(m, f, prev, t), start, bs, i - 1, size, Load(m, f + NEXT), t, bs');
    }
  }

  lemma LeftOnlyTrailer(m: Memory, start: int, bs: seq<Block>, i: nat, f: uint32)
    requires Heap(m, start, bs) && i < |bs| && f == Addr(start, bs, i)
    ensures f as int + HEADER + bs[i].size + 4 < LeftTrailer(m, f)
    ensures LeftTrailer(m, f) % 4 == 0 &&
            LeftTrailer(m, f) as int + TRAILER <= start + HEAP_MAX_SIZE + OVERHEAD + OVERHEAD
  {
    LooksRight(m, start, bs, i, f);
    AddrBounds(start, bs, i + 1);
    assert Addr(start, bs, i + 1) == f + bs[i].size + OVERHEAD by {
      AddrNext(start, bs, i);
    }
    assert Addr(start, bs, i + 1) % 4 == 0 by {
      AlignedAddr(m, start, bs, i + 1);
    }
    assert i + 1 < |bs| ==> bs[i + 1].size % 4 == 0 by {
      if i + 1 < |bs| {
        SegAt(m, start, bs, i + 1, true);
      }
    }
    AlignedTrailer(NextHeader(m, f), Load(m, NextHeader(m, f)));
  }

  // ------------------------------------------------------------------
  // kfree: exactly when it leaves a heap
  // ------------------------------------------------------------------

  /** Release of the first block: it keeps its place at the head of the list, with itself as back link. */
  function FreedFirst(start: uint32, bs: seq<Block>): seq<Block>
    requires RightFree(bs, 0) && Span(bs) < TWO32
  {
    PairFits(bs, 0);
    [Block(bs[0].size + OVERHEAD + bs[1].size, false, start)] + bs[2..]
  }

  lemma FreedSpan(start: int, bs: seq<Block>, i: nat)
    requires 0 < i < |bs| && 0 <= LastLink(start, bs[..i]) < TWO32
    ensures Span(Freed(start, bs, i)) == Span(bs) && |Freed(start, bs, i)| == |bs|
  {
    assert bs == bs[..i] + [bs[i]] + bs[i + 1..];
    SpanAround(bs[..i], bs[i], bs[i + 1..]);
    SpanAround(bs[..i], Block(bs[i].size, false, LastLink(start, bs[..i])), bs[i + 1..]);
  }

  /** The blocks after the release of block `i`. */
  function Released(start: uint32, bs: seq<Block>, i: nat): seq<Block>
    requires i < |bs| && Span(bs) == HEAP_MAX_SIZE + OVERHEAD && Place(start) && (i == 0 ==> RightFree(bs, 0))
  {
    if i == 0 then FreedFirst(start, bs)
    else
      FirstLinkRange(start, bs, i);
      FreedSpan(start, bs, i);
      Coalesced(Freed(start, bs, i), i)
  }

  lemma FirstLinkRange(start: int, bs: seq<Block>, i: nat)
    requires 0 < i < |bs| && Span(bs) == HEAP_MAX_SIZE + OVERHEAD && Place(start)
    ensures 0 <= LastLink(start, bs[..i]) < TWO32
  {
    LastLinkRange(start, bs[..i]);
    AddrBounds(start, bs, i);
  }

  /**
   * The release of block `i` keeps the heap a heap: the left merge happens alone only in the repaired form, and the
   * first block is absorbed into a free right neighbour, provided it is `quiet` below the heap: what the code takes for
   * the block before the first one can be read and is not free.
   */
  predicate ReleaseSound(bs: seq<Block>, i: nat, repaired: bool, quiet: bool)
    requires i < |bs|
  {
    if i == 0 then quiet && RightFree(bs, 0) else repaired || !LeftFree(bs, i) || RightFree(bs, i)
  }

  /** The other live blocks keep their payloads, and nothing outside the heap is written. */
  ghost predicate KeepsOthers(m: Memory, m': Memory, start: int, bs: seq<Block>, i: nat)
    requires i < |bs|
  {
    && KeepsOutside(m, m', start)
    && forall j: nat, x {:trigger InPayload(start, bs, j, x)} ::
         j < |bs| && j != i && bs[j].used && InPayload(start, bs, j, x) ==> Load(m', x) == Load(m, x)
  }

  lemma FreedAddr(start: int, bs: seq<Block>, i: nat, j: nat)
    requires 0 < i < |bs| && 0 <= LastLink(start, bs[..i]) < TWO32 && j < |bs|
    ensures |Freed(start, bs, i)| == |bs| && Addr(start, Freed(start, bs, i), j) == Addr(start, bs, j)
    ensures Freed(start, bs, i)[j].size == bs[j].size
    ensures j != i ==> Freed(start, bs, i)[j] == bs[j]
  {
    SameAddr(start, bs, Freed(start, bs, i), j);
  }

  /** Marking and linking leave the payloads of the other live blocks alone. */
  lemma LinkKeepsOthers(m: Memory, m1: Memory, start: int, bs: seq<Block>, i: nat, p: nat, j: nat, x: int)
    requires i < |bs| && p < |bs| && j < |bs| && j != i && InPayload(start, bs, j, x)
    requires FreeWrites(m, m1, Addr(start, bs, i), bs[i], Addr(start, bs, p))
    ensures Load(m1, x) == Load(m, x)
  {
    var a, t := Addr(start, bs, i), Addr(start, bs, i) + HEADER + bs[i].size;
    if i < j {
      AddrOrder(start, bs, i, j);
    } else {
      AddrOrder(start, bs, j, i);
    }
    if p < j {
      AddrOrder(start, bs, p, j);
    } else if j < p {
      AddrOrder(start, bs, j, p);
    }
  }

  lemma CoalesceFreed(m1: Memory, start: int, bs: seq<Block>, i: nat, f: uint32, repaired: bool, quiet: bool)
    requires 0 < i < |bs| && 0 <= LastLink(start, bs[..i]) < TWO32 && f == Addr(start, bs, i)
    requires Heap(m1, start, Freed(start, bs, i))
    ensures ReleaseSound(bs, i, repaired, quiet) ==>
              && Heap(Coalesce(m1, f, repaired), start, Coalesced(Freed(start, bs, i), i))
              && KeepsPayloads(m1, Coalesce(m1, f, repaired), start, Freed(start, bs, i))
    ensures !ReleaseSound(bs, i, repaired, quiet) ==> NoHeap(Coalesce(m1, f, repaired), start)
  {
    var bs1 := Freed(start, bs, i);
    FreedAddr(start, bs, i, i);
    if RightFree(bs1, i) {
      CoalesceBoth(m1, start, bs1, i, f, repaired);
    } else if repaired || !LeftFree(bs1, i) {
      CoalesceLeft(m1, start, bs1, i, f, repaired);
    } else {
      CoalesceLeftOnly(m1, start, bs1, i, f);
    }
  }

  /** Releasing any block but the first leaves a heap exactly when the release is sound. */
  lemma ReleaseLater(m: Memory, m1: Memory, start: uint32, bs: seq<Block>, i: nat, f: uint32, last: uint32,
                     repaired: bool, quiet: bool)
    requires Heap(m, start, bs) && 0 < i < |bs| && bs[i].used && f == Addr(start, bs, i) &&
             last == LastLink(start, bs[..i])
    requires FreeWrites(m, m1, f, bs[i], last)
    ensures var m' := Coalesce(m1, f, repaired);
            if ReleaseSound(bs, i, repaired, quiet) then
              && Heap(m', start, Released(start, bs, i)) && KeepsOthers(m, m', start, bs, i)
              && forall x :: InPayload(start, bs, i, x) ==> Load(m', x) == Load(m1, x)
            else
              NoHeap(m', start)
  {
    FreeInMemory(m, m1, start, bs, i);
    CoalesceFreed(m1, start, bs, i, f, repaired, quiet);
    if ReleaseSound(bs, i, repaired, quiet) {
      ReleaseKeeps(m, m1, Coalesce(m1, f, repaired), start, bs, i);
    }
  }

  /** Marking, linking and coalescing leave the payloads of the other blocks alone. */
  lemma ReleaseKeeps(m: Memory, m1: Memory, m': Memory, start: uint32, bs: seq<Block>, i: nat)
    requires 0 < i < |bs| && 0 <= LastLink(start, bs[..i]) < TWO32
    requires FreeWrites(m, m1, Addr(start, bs, i), bs[i], LastLink(start, bs[..i]))
    requires KeepsOutside(m, m1, start) && KeepsPayloads(m1, m', start, Freed(start, bs, i))
    ensures KeepsOthers(m, m', start, bs, i)
    ensures forall x :: InPayload(start, bs, i, x) ==> Load(m', x) == Load(m1, x)
  {
    var p := LastLinkIsBlock(start, bs[..i]);
    assert bs[..i][..p] == bs[..p];
    forall j: nat, x | j < |bs| && InPayload(start, bs, j, x)
      ensures Load(m', x) == Load(m1, x)
      ensures j != i ==> Load(m1, x) == Load(m, x)
    {
      FreedAddr(start, bs, i, j);
      assert InPayload(start, Freed(start, bs, i), j, x);
      if j != i {
        LinkKeepsOthers(m, m1, start, bs, i, p, j, x);
      }
    }
    forall x | x < start || start as int + HEAP_MAX_SIZE + OVERHEAD <= x
      ensures Load(m', x) == Load(m, x)
    {
      assert Load(m1, x) == Load(m, x);
    }
  }

  // ------------------------------------------------------------------
  // Releasing the first block
  // ------------------------------------------------------------------

  /** What the code takes for the block before the first one lies clear of the heap and of the guard after it. */
  predicate Clear(start: int, p: int) {
    p + HEADER <= start || start + HEAP_MAX_SIZE + OVERHEAD + OVERHEAD <= p
  }

  /** What the first block sees on its right once it has been marked and linked. */
  lemma FirstLooks(m: Memory, m1: Memory, start: uint32, bs: seq<Block>)
    requires Heap(m, start, bs) && bs[0].used && FreeWrites(m, m1, start, bs[0], start)
    ensures NextHeader(m1, start) == start as int + bs[0].size + OVERHEAD
    ensures FreeAt(m1, NextHeader(m1, start)) <==> RightFree(bs, 0)
    ensures Load(m1, NextHeader(m1, start)) == if |bs| > 1 then bs[1].size else 0
    ensures LeftTrailer(m1, start) == LeftTrailer(m, start)
  {
    var next := start as int + bs[0].size + OVERHEAD;
    assert bs[..0] == [];
    AddrNext(start, bs, 0);
    LooksRight(m, start, bs, 0, start);
    SegAt(m, start, bs, 0, true);
    AddrBounds(start, bs, 0);
    assert Load(m1, next) == Load(m, next) && Load(m1, next + USED) == Load(m, next + USED);
  }

  /** Marking, linking and the right merge stay in the heap. */
  lemma FirstStaysInside(m: Memory, m1: Memory, start: uint32, bs: seq<Block>)
    requires Heap(m, start, bs) && bs[0].used && FreeWrites(m, m1, start, bs[0], start)
    ensures KeepsOutside(m, m1, start) && KeepsOutside(m, AbsorbRight(m1, start), start)
    ensures PrevHeader(m1, start) == PrevHeader(m, start)
  {
    FirstLooks(m, m1, start, bs);
    assert bs[..0] == [];
    AddrBounds(start, bs, 0);
    if RightFree(bs, 0) {
      AddrNext(start, bs, 0);
      AddrBounds(start, bs, 1);
      forall x | x < start || start as int + HEAP_MAX_SIZE + OVERHEAD <= x
        ensures Load(AbsorbRight(m1, start), x) == Load(m, x)
      {
        assert Load(m1, x) == Load(m, x);
      }
    }
  }

  /** Where it lies clear of the heap, what the code reads there is what it was before the release. */
  lemma ReadsBelow(m: Memory, m': Memory, start: uint32, p: uint32)
    requires Place(start) && Clear(start, p) && KeepsOutside(m, m', start)
    ensures Peek(m', p) == Peek(m, p) && Peek(m', Add(p, USED)) == Peek(m, Add(p, USED))
  {
    PeekFrame(m, m', p);
    PeekFrame(m, m', Add(p, USED));
  }

  lemma BesideBelow(start: uint32, p: uint32, trailer: uint32)
    requires Place(start) && Clear(start, p) && trailer % 4 == 0
    requires start <= trailer && trailer as int + TRAILER <= start as int + HEAP_MAX_SIZE + OVERHEAD + OVERHEAD
    ensures Beside(Add(p, NEXT), p) && Beside(trailer, p) && Beside(Add(trailer, 4), p)
  {
  }

  lemma BesideOwn(start: uint32, p: uint32, before: uint32, size: uint32, trailer: uint32)
    requires Place(start) && Clear(start, p) && before < 0xFF00_0000 && size <= HEAP_MAX_SIZE
    requires trailer == TrailerOf(p, Add(Add(Add(before, TRAILER), HEADER), size))
    ensures Beside(Add(p, NEXT), p) && Beside(trailer, p) && Beside(Add(trailer, 4), p)
  {
    assert Add(Add(Add(before, TRAILER), HEADER), size) == before + OVERHEAD + size;
  }

  /** A merge with what the code takes for a free block before the first one rewrites that block's size. */
  lemma MergeBelow(m: Memory, start: uint32, p: uint32, trailer: uint32)
    requires SeemsFree(m, p) && Beside(Add(p, NEXT), p) && Beside(trailer, p) && Beside(Add(trailer, 4), p)
    ensures Peek(AbsorbLeft(m, start, p, trailer), p) == Add(Add(Add(Peek(m, p), TRAILER), HEADER), Load(m, start))
  {
    var size := Add(Add(Add(Peek(m, p), TRAILER), HEADER), Load(m, start));
    PeekFirst(m, p, size, Add(p, NEXT), Load(Poke(m, p, size), start + NEXT), trailer, size, Add(trailer, 4), 0);
  }

  lemma FirstSizeAfter(m: Memory, m1: Memory, start: uint32, bs: seq<Block>)
    requires Heap(m, start, bs) && bs[0].used && FreeWrites(m, m1, start, bs[0], start)
    ensures 0 < Load(AbsorbRight(m1, start), start) <= HEAP_MAX_SIZE
  {
    FirstLooks(m, m1, start, bs);
    assert bs[..0] == [];
    SegAt(m, start, bs, 0, true);
    AddrBounds(start, bs, 0);
    if RightFree(bs, 0) {
      PairFits(bs, 0);
      AddrNext(start, bs, 0);
    }
  }

  /**
   * What the code takes for the block before the first one lies clear of the heap and, for the repaired form, has a
   * size with which the merged block does not wrap round to its own header.
   */
  predicate PlainBelow(m: Memory, start: uint32, repaired: bool) {
    var p := PrevHeader(m, start);
    Clear(start, p) && (repaired ==> Peek(m, p) < 0xFF00_0000)
  }

  /** Where the left merge of the first block writes a trailer, it does not touch the size it has written before. */
  lemma TrailerBeside(m: Memory, m1: Memory, start: uint32, bs: seq<Block>, p: uint32, repaired: bool, t: uint32)
    requires Heap(m, start, bs) && bs[0].used && FreeWrites(m, m1, start, bs[0], start)
    requires p == PrevHeader(m, start) && PlainBelow(m, start, repaired)
    requires t == if repaired then OwnTrailer(AbsorbRight(m1, start), start, p) else LeftTrailer(m1, start)
    ensures Beside(Add(p, NEXT), p) && Beside(t, p) && Beside(Add(t, 4), p)
  {
    if repaired {
      FirstStaysInside(m, m1, start, bs);
      ReadsBelow(m, AbsorbRight(m1, start), start, p);
      FirstSizeAfter(m, m1, start, bs);
      BesideOwn(start, p, Peek(m, p), Load(AbsorbRight(m1, start), start), t);
    } else {
      assert bs[..0] == [];
      FirstLooks(m, m1, start, bs);
      LeftOnlyTrailer(m, start, bs, 0, start);
      BesideBelow(start, p, t);
    }
  }

  /** Releasing the first block writes outside the heap when it seems to follow a free block. */
  lemma MergesBelow(m: Memory, m1: Memory, start: uint32, bs: seq<Block>, p: uint32, repaired: bool)
    requires Heap(m, start, bs) && bs[0].used && FreeWrites(m, m1, start, bs[0], start)
    requires p == PrevHeader(m, start) && PlainBelow(m, start, repaired) && SeemsFree(AbsorbRight(m1, start), p)
    ensures !KeepsOutside(m, Coalesce(m1, start, repaired), start)
  {
    var m2 := AbsorbRight(m1, start);
    var t := if repaired then OwnTrailer(m2, start, p) else LeftTrailer(m1, start);
    FirstStaysInside(m, m1, start, bs);
    FirstSizeAfter(m, m1, start, bs);
    TrailerBeside(m, m1, start, bs, p, repaired, t);
    MergeBelow(m2, start, p, t);
    ReadsBelow(m, m2, start, p);
    if KeepsOutside(m, Coalesce(m1, start, repaired), start) {
      ReadsBelow(m, Coalesce(m1, start, repaired), start, p);
    }
  }

  /** The self link left behind when nothing absorbs it. */
  lemma SelfLink(m: Memory, start: int, bs: seq<Block>)
    requires Load(m, start + NEXT) == start && HEAP_MAX_SIZE < start
    ensures !Heap(m, start, bs)
  {
    if Heap(m, start, bs) {
      assert bs[..0] == [];
      SegAt(m, start, bs, 0, true);
      FirstFreeRange(start + bs[0].size + OVERHEAD, bs[1..]);
    }
  }

  /** The blocks of a heap whose first one absorbs its free neighbour while it is released. */
  lemma AbsorbIntoFirst(m: Memory, m1: Memory, start: uint32, x: Block, y: Block, r: seq<Block>, r': seq<Block>,
                        b: Block)
    requires Apart(m, start, [], x, r') && r' == [y] + r && x.used && !y.used
    requires FreeWrites(m, m1, start, x, start)
    requires NextHeader(m1, start) == start as int + x.size + OVERHEAD && FreeAt(m1, NextHeader(m1, start))
    requires x.size as int + OVERHEAD + y.size <= HEAP_MAX_SIZE && b == Block(x.size + OVERHEAD + y.size, false, start)
    ensures Apart(AbsorbRight(m1, start), start, [], b, r)
  {
    var c := start as int + x.size + OVERHEAD;
    var z := c + y.size + OVERHEAD;
    var n := FirstFree(z, r, 0);
    var m2 := AbsorbRight(m1, start);
    PopFree(m, c, y, r, r');
    FirstAbsorbs(m, m1, start, x, y);
    assert Seg(m2, start, [b], n, true) by {
      SegOne(m2, start, b, n, true);
    }
    assert Seg(m2, z, r, 0, false) by {
      SegFrame(m, m2, z, r, 0, false);
    }
    ApartAgain(m, m2, start, [], x, r', b, r, start, z, start, n);
  }

  /** The right merge writes the first block's size and link, and the trailer after its neighbour. */
  lemma FirstMergeWrites(m: Memory, m1: Memory, start: uint32, x: Block, y: Block, c: int)
    requires Place(start) && c == start as int + x.size + OVERHEAD && BlockAt(m, start, x) && BlockAt(m, c, y)
    requires c + y.size <= start as int + HEAP_MAX_SIZE + OVERHEAD && FreeWrites(m, m1, start, x, start)
    requires NextHeader(m1, start) == c && FreeAt(m1, c)
    ensures Load(m1, c) == y.size && Load(m1, c + NEXT) == Load(m, c + NEXT)
    ensures MergeWrites(m1, AbsorbRight(m1, start), start, x.size + OVERHEAD + y.size, Load(m, c + NEXT),
              c + HEADER + y.size)
  {
    assert Load(m1, c) == Load(m, c) == y.size;
    assert Load(m1, c + NEXT) == Load(m, c + NEXT);
  }

  lemma FirstAbsorbs(m: Memory, m1: Memory, start: uint32, x: Block, y: Block)
    requires Place(start) && BlockAt(m, start, x) && BlockAt(m, start as int + x.size + OVERHEAD, y) && x.used &&
             !y.used
    requires x.size as int + OVERHEAD + y.size <= HEAP_MAX_SIZE
    requires FreeWrites(m, m1, start, x, start)
    requires NextHeader(m1, start) == start as int + x.size + OVERHEAD && FreeAt(m1, NextHeader(m1, start))
    ensures var m2 := AbsorbRight(m1, start); var c := start as int + x.size + OVERHEAD;
            && BlockAt(m2, start, Block(x.size + OVERHEAD + y.size, false, start))
            && Load(m2, start + NEXT) == Load(m, c + NEXT)
            && OnlyWithin(m, m2, start, c + y.size + OVERHEAD)
            && forall w {:trigger Load(m2, w)} :: start + HEADER <= w < c - TRAILER ==> Load(m2, w) == Load(m1, w)
  {
    var c := start as int + x.size + OVERHEAD;
    var z := c + y.size + OVERHEAD;
    var m2 := AbsorbRight(m1, start);
    FirstMergeWrites(m, m1, start, x, y, c);
    forall w | w < start || z <= w
      ensures Load(m2, w) == Load(m, w)
    {
      assert Load(m1, w) == Load(m, w);
    }
  }

  lemma ReleaseFirstSound(m: Memory, m1: Memory, start: uint32, bs: seq<Block>)
    requires Heap(m, start, bs) && bs[0].used && RightFree(bs, 0) && FreeWrites(m, m1, start, bs[0], start)
    ensures var m' := AbsorbRight(m1, start);
            && Heap(m', start, FreedFirst(start, bs)) && KeepsOthers(m, m', start, bs, 0)
            && forall x :: InPayload(start, bs, 0, x) ==> Load(m', x) == Load(m1, x)
  {
    var x, y, r := bs[0], bs[1], bs[2..];
    var r' := [y] + r;
    assert bs == [] + [x] + r' && bs == [x, y] + r;
    FirstLooks(m, m1, start, bs);
    PairFits(bs, 0);
    TakeApart(m, start, [], x, r');
    assert Heap(AbsorbRight(m1, start), start, FreedFirst(start, bs)) by {
      FirstHeap(m, m1, start, x, y, r, r', Block(x.size + OVERHEAD + y.size, false, start));
      assert [] + [Block(x.size + OVERHEAD + y.size, false, start)] + r == FreedFirst(start, bs);
    }
    FirstKeeps(m, m1, start, bs, x, y, r, r');
  }

  lemma FirstHeap(m: Memory, m1: Memory, start: uint32, x: Block, y: Block, r: seq<Block>, r': seq<Block>, b: Block)
    requires Apart(m, start, [], x, r') && r' == [y] + r && x.used && !y.used && FreeWrites(m, m1, start, x, start)
    requires NextHeader(m1, start) == start as int + x.size + OVERHEAD && FreeAt(m1, NextHeader(m1, start))
    requires x.size as int + OVERHEAD + y.size <= HEAP_MAX_SIZE && b == Block(x.size + OVERHEAD + y.size, false, start)
    ensures Heap(AbsorbRight(m1, start), start, [] + [b] + r)
  {
    AbsorbIntoFirst(m, m1, start, x, y, r, r', b);
    PutTogether(AbsorbRight(m1, start), start, [], b, r);
  }

  lemma FirstKeeps(m: Memory, m1: Memory, start: uint32, bs: seq<Block>, x: Block, y: Block, r: seq<Block>,
                   r': seq<Block>)
    requires bs == [x, y] + r && r' == [y] + r && x.used && !y.used && Span(bs) == HEAP_MAX_SIZE + OVERHEAD
    requires Apart(m, start, [], x, r') && FreeWrites(m, m1, start, x, start)
    requires x.size as int + OVERHEAD + y.size <= HEAP_MAX_SIZE
    requires NextHeader(m1, start) == start as int + x.size + OVERHEAD && FreeAt(m1, NextHeader(m1, start))
    ensures KeepsOthers(m, AbsorbRight(m1, start), start, bs, 0)
    ensures forall w :: InPayload(start, bs, 0, w) ==> Load(AbsorbRight(m1, start), w) == Load(m1, w)
  {
    PopFree(m, start as int + x.size + OVERHEAD, y, r, r');
    FirstAbsorbs(m, m1, start, x, y);
    FirstKeepsOthers(m, AbsorbRight(m1, start), start, bs);
    assert bs[..0] == [];
  }

  lemma FirstKeepsOthers(m: Memory, m': Memory, start: int, bs: seq<Block>)
    requires RightFree(bs, 0) && Span(bs) == HEAP_MAX_SIZE + OVERHEAD
    requires OnlyWithin(m, m', start, start + bs[0].size + OVERHEAD + bs[1].size + OVERHEAD)
    ensures KeepsOthers(m, m', start, bs, 0)
  {
    AddrNext(start, bs, 0);
    AddrNext(start, bs, 1);
    assert bs[..0] == [];
    AddrBounds(start, bs, 2);
    forall j: nat, x | j < |bs| && j != 0 && bs[j].used && InPayload(start, bs, j, x)
      ensures Load(m', x) == Load(m, x)
    {
      AddrOrder(start, bs, 1, j);
    }
  }

  /**
   * Releasing the first block, whatever lies below the heap. When the code finds no free block there, a heap is left
   * exactly when the block after the first one is free. When it finds one clear of the heap, it writes outside the
   * heap.
   */
  lemma ReleaseFirst(m: Memory, m1: Memory, start: uint32, bs: seq<Block>, repaired: bool)
    requires Heap(m, start, bs) && bs[0].used && FreeWrites(m, m1, start, bs[0], start)
    ensures var m' := Coalesce(m1, start, repaired); var p := PrevHeader(m1, start);
            var merges := SeemsFree(AbsorbRight(m1, start), p);
            && (!merges && RightFree(bs, 0) ==>
                  && Heap(m', start, FreedFirst(start, bs)) && KeepsOthers(m, m', start, bs, 0)
                  && forall x :: InPayload(start, bs, 0, x) ==> Load(m', x) == Load(m1, x))
            && (!merges && !RightFree(bs, 0) ==> NoHeap(m', start))
            && (merges && PlainBelow(m, start, repaired) ==> !KeepsOutside(m, m', start))
            && p == PrevHeader(m, start)
            && (Clear(start, p) ==> (merges <==> SeemsFree(m, p)))
  {
    var m', p := Coalesce(m1, start, repaired), PrevHeader(m1, start);
    FirstStaysInside(m, m1, start, bs);
    if Clear(start, p) {
      ReadsBelow(m, AbsorbRight(m1, start), start, p);
    }
    if SeemsFree(AbsorbRight(m1, start), p) {
      if PlainBelow(m, start, repaired) {
        MergesBelow(m, m1, start, bs, p, repaired);
      }
    } else if RightFree(bs, 0) {
      ReleaseFirstSound(m, m1, start, bs);
    } else {
      FirstLooks(m, m1, start, bs);
      forall bs'
        ensures !Heap(m1, start, bs')
      {
        SelfLink(m1, start, bs');
      }
    }
  }

  /** What the word below the heap must hold for the code to take words of the heap for the block before it. */
  lemma OverlapsExactly(m: Memory, start: uint32)
    requires Place(start)
    ensures !Clear(start, PrevHeader(m, start)) <==>
            TWO32 - HEAP_MAX_SIZE - OVERHEAD - OVERHEAD - OVERHEAD < Load(m, start - TRAILER) < TWO32 - TRAILER
  {
  }

  /** The header of the first block is not among what a merge with a block at `p` writes. */
  predicate OffHeader(start: int, p: int) {
    p + HEADER <= start || start + HEADER <= p
  }

  /** What four stores away from the first header leave of it, and the third and fourth of them. */
  lemma HeaderStays(m: Memory, start: uint32, p: uint32, t: uint32, v: uint32, n: uint32)
    requires Place(start) && OffHeader(start, p) && p as int + HEADER < TWO32 && t % 4 == 0 && start + HEADER <= t
    requires t as int + TRAILER <= TWO32
    ensures var m' := Poke(Poke(Poke(Poke(m, p, v), Add(p, NEXT), n), t, v), Add(t, 4), 0);
            && Load(m', start) == Load(m, start) && Load(m', start + NEXT) == Load(m, start + NEXT)
            && Load(m', t) == v
  {
    var m1 := Poke(m, p, v);
    PeekPoke(m, p, v);
    PeekPoke(m1, p + NEXT, n);
    assert Load(m1, start) == Load(m, start) && Load(m1, start + NEXT) == Load(m, start + NEXT);
  }

  /**
   * As written, a merge with what seems a free block below the first one, wherever that lies off the first header,
   * leaves no heap, but for one case: the next block is free, and the word taken for a size is just the one with which
   * the sum of the sizes wraps round to the merged block's own.
   */
  lemma MergeLosesHeap(m: Memory, m1: Memory, start: uint32, bs: seq<Block>, p: uint32)
    requires Heap(m, start, bs) && bs[0].used && FreeWrites(m, m1, start, bs[0], start)
    requires p == PrevHeader(m, start) && p as int + HEADER < TWO32 && OffHeader(start, p)
    requires SeemsFree(AbsorbRight(m1, start), p)
    requires !(RightFree(bs, 0) && Peek(AbsorbRight(m1, start), p) == TWO32 - OVERHEAD)
    ensures NoHeap(Coalesce(m1, start, false), start)
  {
    var m2, t := AbsorbRight(m1, start), LeftTrailer(m1, start);
    FirstStaysInside(m, m1, start, bs);
    FirstLooks(m, m1, start, bs);
    assert bs[..0] == [];
    LeftOnlyTrailer(m, start, bs, 0, start);
    var m' := Coalesce(m1, start, false);
    var size := Add(Add(Add(Peek(m2, p), TRAILER), HEADER), Load(m2, start));
    HeaderStays(m2, start, p, t, size, Load(Poke(m2, p, size), start + NEXT));
    forall bs'
      ensures !Heap(m', start, bs')
    {
      if RightFree(bs, 0) {
        FirstTrailerWrong(m, m1, start, bs, m', bs', size, t);
      } else {
        SelfLink(m', start, bs');
      }
    }
  }

  /** The first block's header is right and its trailer is not. */
  lemma FirstTrailerWrong(m: Memory, m1: Memory, start: uint32, bs: seq<Block>, m': Memory, bs': seq<Block>,
                          size: uint32, t: uint32)
    requires Heap(m, start, bs) && bs[0].used && FreeWrites(m, m1, start, bs[0], start) && RightFree(bs, 0)
    requires t == LeftTrailer(m1, start) && Load(m', t) == size
    requires Load(m', start) == Load(AbsorbRight(m1, start), start) && size != Load(m', start)
    ensures !Heap(m', start, bs')
  {
    FirstLooks(m, m1, start, bs);
    PairFits(bs, 0);
    if Heap(m', start, bs') {
      assert bs'[..0] == [];
      SegAt(m', start, bs', 0, true);
    }
  }

  // ------------------------------------------------------------------
  // Reading below the heap
  // ------------------------------------------------------------------

  /**
   * Coalescing the marked and linked block at `f` reads an address nothing is mapped at. `readable` tells whether the
   * 4 bytes at an address can be read.
   */
  predicate Faults(m: Memory, f: uint32, readable: int -> bool) {
    var p := PrevHeader(m, f);
    || !readable(Sub(f, TRAILER))
    || !readable(p)
    || (Peek(AbsorbRight(m, f), p) != 0 && !readable(Add(p, USED)))
  }

  /** Coalescing the block at `f` finds no free block before it. */
  predicate Quiet(m: Memory, f: uint32, readable: int -> bool) {
    !Faults(m, f, readable) && !SeemsFree(AbsorbRight(m, f), PrevHeader(m, f))
  }

  /** The words below the heap that the release of the first block looks at can be read and show no free block. */
  predicate QuietBelow(m: Memory, start: uint32, readable: int -> bool) {
    var p := PrevHeader(m, start);
    && readable(start - TRAILER)
    && readable(p)
    && (Peek(m, p) == 0 || (readable(Add(p, USED)) && Peek(m, Add(p, USED)) != 0))
  }

  /** Where those words lie clear of the heap they decide it, before the release. */
  lemma QuietFirst(m: Memory, m1: Memory, start: uint32, bs: seq<Block>, readable: int -> bool)
    requires Heap(m, start, bs) && bs[0].used && FreeWrites(m, m1, start, bs[0], start)
    requires Clear(start, PrevHeader(m, start))
    ensures Quiet(m1, start, readable) <==> QuietBelow(m, start, readable)
  {
    FirstStaysInside(m, m1, start, bs);
    ReadsBelow(m, AbsorbRight(m1, start), start, PrevHeader(m, start));
  }

  /** And no call that keeps to the heap changes them. */
  lemma QuietStays(m: Memory, m': Memory, start: uint32, readable: int -> bool)
    requires Place(start) && Clear(start, PrevHeader(m, start)) && KeepsOutside(m, m', start)
    ensures PrevHeader(m', start) == PrevHeader(m, start)
    ensures QuietBelow(m', start, readable) <==> QuietBelow(m, start, readable)
  {
    ReadsBelow(m, m', start, PrevHeader(m, start));
  }
}
