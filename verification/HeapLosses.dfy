/** Sequences of calls after which kernel/kheap.c leaves no heap. */
module HeapLosses {
  import opened Words
  import opened HeapBlocks
  import opened HeapMemory
  import opened HeapOps
  import opened HeapFaults
  import opened HeapRelease
  import opened HeapRuns

  // ------------------------------------------------------------------
  // Asking and giving back
  // ------------------------------------------------------------------

  /** The blocks right after a split around the one handed out. */
  lemma AroundSplit(start: uint32, bs: seq<Block>, k: nat, request: uint32)
    requires Settled(start, bs) && k < |bs| && !bs[k].used && 0 < request && request as int + OVERHEAD < bs[k].size
    requires 0 <= Addr(start, bs, k) < TWO32
    ensures var bs' := Split(start, bs, k, request);
            && |bs'| == |bs| + 1 && bs'[k + 1] == Block(request, true, Addr(start, bs, k)) && !bs'[k].used
            && Addr(start, bs', k + 1) == Addr(start, bs, k) + bs[k].size - request
            && LeftFree(bs', k + 1) && !RightFree(bs', k + 1)
  {
    var bs' := Split(start, bs, k, request);
    assert bs'[..k] == bs[..k];
    AddrNext(start, bs', k);
    if k + 1 < |bs| {
      assert bs[k].used || bs[k + 1].used;
      assert bs'[k + 2] == bs[k + 1];
    }
  }

  lemma SplitThenFreeAt(start: uint32, bs: seq<Block>, k: nat, request: uint32, ptr: uint32, quiet: bool)
    requires Settled(start, bs) && k < |bs| && !bs[k].used && 0 < request && request as int + OVERHEAD < bs[k].size
    requires 0 <= Addr(start, bs, k) < TWO32 && ptr == Addr(start, bs, k) + bs[k].size - request + HEADER
    requires Settled(start, Split(start, bs, k, request))
    ensures Next(start, Split(start, bs, k, request), Free(ptr), false, quiet) == None
    ensures Next(start, Split(start, bs, k, request), Free(ptr), true, quiet) == Some(bs)
  {
    var bs' := Split(start, bs, k, request);
    AroundSplit(start, bs, k, request);
    LiveIndexOf(start, bs', k + 1);
    AddrBounds(start, bs', k + 1);
    SplitUndone(start, bs, bs', k, request);
    LeftFreed(start, bs', k + 1, ptr, bs, quiet);
  }

  /** The release of a block of which only the left neighbour is free, in both forms. */
  lemma LeftFreed(start: uint32, bs: seq<Block>, i: nat, ptr: uint32, bs': seq<Block>, quiet: bool)
    requires Tiled(start, bs) && 0 < i < |bs| && LiveIndex(start, bs, ptr) == i
    requires start <= ptr <= start + HEAP_MAX_SIZE + OVERHEAD && LeftFree(bs, i) && !RightFree(bs, i)
    requires Released(start, bs, i) == bs'
    ensures Next(start, bs, Free(ptr), false, quiet) == None
    ensures Next(start, bs, Free(ptr), true, quiet) == Some(bs')
  {
  }

  lemma SplitUndone(start: uint32, bs: seq<Block>, bs': seq<Block>, k: nat, request: uint32)
    requires Tiled(start, bs) && Tiled(start, bs') && k < |bs| && 0 < request && request as int + OVERHEAD < bs[k].size
    requires 0 <= Addr(start, bs, k) < TWO32 && bs' == Split(start, bs, k, request)
    requires k + 1 < |bs'| && LeftFree(bs', k + 1) && !RightFree(bs', k + 1)
    ensures Released(start, bs', k + 1) == bs
  {
    FirstLinkRange(start, bs', k + 1);
    FreedSpan(start, bs', k + 1);
    var f := Freed(start, bs', k + 1);
    assert f[..k] == bs[..k] && f[k + 2..] == bs[k + 1..];
    assert f[k] == bs'[k];
    assert RightFree(f, k + 1) == RightFree(bs', k + 1);
    PairFits(f, k);
    assert MergeLeft(f, k + 1) == Merge(f, k);
    assert bs == bs[..k] + [bs[k]] + bs[k + 1..];
  }

  lemma SplitServed(start: uint32, bs: seq<Block>, size: uint32, k: nat, request: uint32, quiet: bool)
    requires Settled(start, bs) && 0 < size && request == RoundUp4(size) && k == Best(bs, request)
    requires AllocSound(start, bs, k, request) && bs[k].size != request
    ensures 0 <= Addr(start, bs, k) < TWO32 && 0 <= Addr(start, bs, k) + bs[k].size - request + HEADER < TWO32
    ensures Next(start, bs, Malloc(size), false, quiet) == Some(Split(start, bs, k, request))
    ensures Settled(start, Split(start, bs, k, request))
  {
    AddrBounds(start, bs, k);
    NextSettled(start, bs, Malloc(size), false, quiet);
  }

  /**
   * A request served by a split and released at once: its left neighbour is free and its right one is not, so the code
   * as written always loses the heap. In the repaired form the release undoes the request.
   */
  lemma SplitThenFree(start: uint32, bs: seq<Block>, size: uint32, k: nat, request: uint32, ptr: int, quiet: bool)
    requires Settled(start, bs) && 0 < size && request == RoundUp4(size) && k == Best(bs, request)
    requires AllocSound(start, bs, k, request) && bs[k].size != request
    requires ptr == Addr(start, bs, k) + bs[k].size - request + HEADER
    ensures 0 <= ptr < TWO32 && 0 <= Addr(start, bs, k) < TWO32
    ensures Next(start, bs, Malloc(size), false, quiet) == Some(Split(start, bs, k, request))
    ensures Settled(start, Split(start, bs, k, request))
    ensures Next(start, Split(start, bs, k, request), Free(ptr), false, quiet) == None
    ensures Next(start, Split(start, bs, k, request), Free(ptr), true, quiet) == Some(bs)
  {
    SplitServed(start, bs, size, k, request, quiet);
    SplitThenFreeAt(start, bs, k, request, ptr, quiet);
  }

  // ------------------------------------------------------------------
  // How a release spoils exact fits
  // ------------------------------------------------------------------

  /** Releasing a block between used neighbours only links it. */
  lemma FreeBetween(start: uint32, bs: seq<Block>, i: nat, repaired: bool, quiet: bool)
    requires Tiled(start, bs) && 0 < i < |bs| && bs[i].used && bs[i - 1].used && !RightFree(bs, i)
    ensures 0 <= LastLink(start, bs[..i]) < TWO32 && 0 <= Addr(start, bs, i) + HEADER < TWO32
    ensures Next(start, bs, Free(Addr(start, bs, i) + HEADER), repaired, quiet) == Some(Freed(start, bs, i))
  {
    FirstLinkRange(start, bs, i);
    AddrBounds(start, bs, i);
    LiveIndexOf(start, bs, i);
  }

  lemma {:induction false} LastLinkSkips(start: int, bs: seq<Block>, i: nat, k: nat)
    requires i < k <= |bs| && forall j :: i < j < k ==> bs[j].used
    ensures LastLink(start, bs[..k]) == LastLink(start, bs[..i + 1])
    decreases k
  {
    if i + 1 < k {
      assert bs[..k][..k - 1] == bs[..k - 1];
      LastLinkSkips(start, bs, i, k - 1);
    }
  }

  lemma FreedLinks(start: int, bs: seq<Block>, i: nat, k: nat)
    requires 0 < i < k < |bs| && (forall j :: i - 1 <= j < k ==> bs[j].used) && 0 <= LastLink(start, bs[..i]) < TWO32
    ensures LastLink(start, bs[..k]) == LastLink(start, bs[..i]) < Addr(start, bs, i)
    ensures LastLink(start, Freed(start, bs, i)[..k]) == Addr(start, bs, i)
    ensures Freed(start, bs, i)[k] == bs[k]
  {
    var bs' := Freed(start, bs, i);
    LastLinkSkips(start, bs, i - 1, k);
    LastLinkRange(start, bs[..i]);
    assert forall j :: i < j <= k ==> bs'[j] == bs[j];
    LastLinkSkips(start, bs', i, k);
    FreedAddr(start, bs, i, i);
    assert bs'[..i + 1][..i] == bs'[..i];
    assert !bs'[i].used;
  }

  /**
   * A release that merges with neither neighbour leaves the next free block with a back link past the released one,
   * if the link was right before. The code never refreshes it, so an exact fit of that block is no longer sound.
   */
  lemma SuccessorGoesStale(start: uint32, bs: seq<Block>, i: nat, k: nat, quiet: bool)
    requires Tiled(start, bs) && 0 < i && i + 1 < k < |bs| && (forall j :: i - 1 <= j < k ==> bs[j].used) && !bs[k].used
    requires BackLinkRight(start, bs, k)
    ensures 0 <= LastLink(start, bs[..i]) < TWO32 && 0 <= Addr(start, bs, i) + HEADER < TWO32
    ensures Next(start, bs, Free(Addr(start, bs, i) + HEADER), false, quiet) == Some(Freed(start, bs, i))
    ensures !BackLinkRight(start, Freed(start, bs, i), k)
  {
    FreeBetween(start, bs, i, false, quiet);
    FreedLinks(start, bs, i, k);
  }

  lemma LosesHeap(start: uint32, bs: seq<Block>, k: nat, size: uint32, quiet: bool)
    requires Tiled(start, bs) && k < |bs| && Fits(bs[k], size) && bs[k].size == size && 0 < size && size % 4 == 0
    requires forall j :: 0 <= j < |bs| && j != k && Fits(bs[j], size) ==> size < bs[j].size
    requires !BackLinkRight(start, bs, k)
    ensures Next(start, bs, Malloc(size), false, quiet) == None
  {
    RoundUp4Value(size);
    assert RoundUp4(size) == size;
    assert Best(bs, size) == k;
  }

  // ------------------------------------------------------------------
  // From the fresh heap
  // ------------------------------------------------------------------

  /** The first request loses the heap exactly when it leaves the free block no room, or is rounded up to zero. */
  lemma FirstRequest(start: uint32, size: uint32, quiet: bool)
    requires Place(start)
    ensures Tiled(start, Initial())
    ensures Next(start, Initial(), Malloc(size), false, quiet) == None <==>
            (HEAP_MAX_SIZE - OVERHEAD <= RoundUp4(size) < HEAP_MAX_SIZE || size > 0xFFFF_FFFC)
  {
    InitialSettled(start);
    RoundUp4Value(size);
    assert Initial()[..0] == [];
  }

  /** As written, the release of what the first request was given loses the heap. */
  lemma FirstRelease(start: uint32, size: uint32, quiet: bool)
    requires Place(start) && 0 < size && RoundUp4(size) as int + OVERHEAD < HEAP_MAX_SIZE && size <= 0xFFFF_FFFC
    ensures Settled(start, Initial())
    ensures var ptr := start + HEAP_MAX_SIZE - RoundUp4(size) + HEADER;
            Run(start, Initial(), [Malloc(size), Free(ptr)], false, quiet) == None
  {
    InitialSettled(start);
    RoundUp4Value(size);
    assert Initial()[..0] == [];
    var ptr: uint32 := start + HEAP_MAX_SIZE - RoundUp4(size) + HEADER;
    SplitThenFree(start, Initial(), size, 0, RoundUp4(size), ptr, quiet);
    RunTwo(start, Initial(), Malloc(size), Free(ptr), quiet);
  }

  lemma RunTwo(start: uint32, bs: seq<Block>, c: Call, d: Call, quiet: bool)
    requires Settled(start, bs)
    requires var n := Next(start, bs, c, false, quiet);
             n.Some? && Tiled(start, n.value) && Next(start, n.value, d, false, quiet) == None
    ensures Run(start, bs, [c, d], false, quiet) == None
  {
    NextSettled(start, bs, c, false, quiet);
    assert [c, d][1..] == [d];
  }

  /** A run goes on from where its first call leads. */
  lemma RunFrom(start: uint32, bs: seq<Block>, c: Call, bs': seq<Block>, calls: seq<Call>, rest: seq<Call>, quiet: bool)
    requires Settled(start, bs) && Next(start, bs, c, false, quiet) == Some(bs') && calls == [c] + rest
    requires Allowed(start, bs, c, false)
    ensures Settled(start, bs')
    ensures Run(start, bs, calls, false, quiet) == Run(start, bs', rest, false, quiet)
    ensures AllAllowed(start, bs, calls, false, quiet) <==> AllAllowed(start, bs', rest, false, quiet)
  {
    NextSettled(start, bs, c, false, quiet);
    assert calls[1..] == rest;
  }

  /** The first request may take the whole heap. Giving it back then loses the heap, repaired or not. */
  lemma WholeHeap(start: uint32, taken: seq<Block>, repaired: bool, quiet: bool)
    requires Place(start) && taken == [Block(HEAP_MAX_SIZE, true, 0)]
    ensures Settled(start, Initial()) && Settled(start, taken)
    ensures Next(start, Initial(), Malloc(HEAP_MAX_SIZE), repaired, quiet) == Some(taken)
    ensures Next(start, taken, Free(start + HEADER), repaired, quiet) == None
    ensures Run(start, Initial(), [Malloc(HEAP_MAX_SIZE), Free(start + HEADER)], repaired, quiet) == None
  {
    InitialSettled(start);
    RoundUp4Value(HEAP_MAX_SIZE);
    assert Initial()[..0] == [] && taken[..0] == [];
    assert TakeWhole(Initial(), 0) == taken;
    NextSettled(start, Initial(), Malloc(HEAP_MAX_SIZE), repaired, quiet);
    LiveIndexOf(start, taken, 0);
    assert [Malloc(HEAP_MAX_SIZE), Free(start + HEADER)][1..] == [Free(start + HEADER)];
  }

  /** Two requests that between them take the whole heap, and the release of the first of them. */
  lemma HeadHandedOut(start: uint32, size: uint32, bs1: seq<Block>, bs2: seq<Block>, bs3: seq<Block>, quiet: bool)
    requires Place(start) && 0 < size && size % 4 == 0 && size as int + OVERHEAD < HEAP_MAX_SIZE
    requires bs1 == [Block(HEAP_MAX_SIZE - size - OVERHEAD, false, 0), Block(size, true, start)]
    requires bs2 == [bs1[0].(used := true), bs1[1]] && bs3 == [bs2[0], Block(size, false, start)]
    ensures Settled(start, Initial()) && Settled(start, bs1) && Settled(start, bs2) && Settled(start, bs3)
    ensures Next(start, Initial(), Malloc(size), false, quiet) == Some(bs1)
    ensures Next(start, bs1, Malloc(bs1[0].size), false, quiet) == Some(bs2)
    ensures Next(start, bs2, Free(start + HEAP_MAX_SIZE - size + HEADER), false, quiet) == Some(bs3)
  {
    InitialSettled(start);
    assert Initial() == [Initial()[0]] + [] && bs1 == [bs1[0]] + ([bs1[1]] + []);
    FrontSplit(start, Initial()[0], [], size, bs1[0], [bs1[1]] + [], quiet);
    HeadTaken(start, bs1, bs2, quiet);
    TailGivenBack(start, bs2, bs3, quiet);
  }

  lemma HeadTaken(start: uint32, bs1: seq<Block>, bs2: seq<Block>, quiet: bool)
    requires Settled(start, bs1) && |bs1| == 2 && !bs1[0].used && bs1[1].used && bs2 == [bs1[0].(used := true), bs1[1]]
    ensures Settled(start, bs2) && Next(start, bs1, Malloc(bs1[0].size), false, quiet) == Some(bs2)
  {
    assert TakeWhole(bs1, 0) == bs2 by {
      assert bs1[..0] == [] && bs1[1..] == [bs1[1]] && bs1[1..][1..] == [];
      assert SetPrev(bs1[1..], bs1[0].prev) == [bs1[1]];
    }
    assert bs1[0] in bs1 && Best(bs1, bs1[0].size) == 0 by {
      assert Fits(bs1[0], bs1[0].size);
    }
    RoundUp4Value(bs1[0].size);
    NextSettled(start, bs1, Malloc(bs1[0].size), false, quiet);
  }

  lemma TailGivenBack(start: uint32, bs2: seq<Block>, bs3: seq<Block>, quiet: bool)
    requires Settled(start, bs2) && |bs2| == 2 && bs2[0].used && bs2[1].used
    requires bs3 == [bs2[0], Block(bs2[1].size, false, start)]
    ensures 0 <= start + HEAP_MAX_SIZE - bs2[1].size + HEADER < TWO32
    ensures Settled(start, bs3)
    ensures Next(start, bs2, Free(start + HEAP_MAX_SIZE - bs2[1].size + HEADER), false, quiet) == Some(bs3)
  {
    assert bs2[..1] == [bs2[0]] && bs2[..1][..0] == [] && bs2[..2] == bs2 && bs2[..0] == [];
    AddrNext(start, bs2, 0);
    AddrNext(start, bs2, 1);
    AddrBounds(start, bs2, 1);
    FreeBetween(start, bs2, 1, false, quiet);
    assert Freed(start, bs2, 1) == bs3;
    NextSettled(start, bs2, Free(Addr(start, bs2, 1) + HEADER), false, quiet);
  }

  /**
   * From there the release of the first block leaves one free block with itself as back link, when what lies below the
   * heap is quiet; otherwise it loses the heap.
   */
  lemma HeadGivenBack(start: uint32, size: uint32, bs3: seq<Block>, repaired: bool, quiet: bool)
    requires 0 < size && size % 4 == 0 && size as int + OVERHEAD < HEAP_MAX_SIZE
    requires bs3 == [Block(HEAP_MAX_SIZE - size - OVERHEAD, true, 0), Block(size, false, start)] && Settled(start, bs3)
    ensures Next(start, bs3, Free(start + HEADER), repaired, quiet) ==
            if quiet then Some([Block(HEAP_MAX_SIZE, false, start)]) else None
  {
    assert bs3[..0] == [];
    LiveIndexOf(start, bs3, 0);
    PairFits(bs3, 0);
    assert FreedFirst(start, bs3) == [Block(HEAP_MAX_SIZE, false, start)];
  }

  /** A request that splits the first block, the only free one, in front of the blocks handed out before. */
  lemma FrontSplit(start: uint32, f: Block, r: seq<Block>, size: uint32, f': Block, r': seq<Block>, quiet: bool)
    requires Settled(start, [f] + r) && !f.used && forall j :: 0 <= j < |r| ==> r[j].used
    requires 0 < size && size % 4 == 0 && size as int + OVERHEAD < f.size
    requires f' == f.(size := f.size - size - OVERHEAD) && r' == [Block(size, true, start)] + r
    ensures Allowed(start, [f] + r, Malloc(size), false)
    ensures Next(start, [f] + r, Malloc(size), false, quiet) == Some([f'] + r')
    ensures Settled(start, [f'] + r') && forall j :: 0 <= j < |r'| ==> r'[j].used
  {
    var bs := [f] + r;
    assert bs[..0] == [] && bs[1..] == r && bs[0] == f;
    RoundUp4Value(size);
    AddrBounds(start, bs, 0);
    forall j | 0 < j < |bs|
      ensures bs[j].used
    {
      assert bs[j] == r[j - 1];
    }
    assert Fits(bs[0], size) && Best(bs, size) == 0;
    assert Split(start, bs, 0, size) == [f'] + r';
    NextSettled(start, bs, Malloc(size), false, quiet);
  }

  /** A heap in which every link is right: a large free block, three live ones, and a free one of eight bytes. */
  function FiveBlocks(start: uint32): (bs: seq<Block>)
    ensures |bs| == 5
  {
    [Block(HEAP_MAX_SIZE - 136, false, 0), Block(8, true, start), Block(16, true, start), Block(8, true, start),
     Block(8, false, start)]
  }

  lemma FiveSettled(start: uint32)
    requires Place(start)
    ensures var bs := FiveBlocks(start);
            Settled(start, bs) && BackLinkRight(start, bs, 4) &&
              Addr(start, bs, 2) + HEADER == start + HEAP_MAX_SIZE - 64
  {
    var bs := FiveBlocks(start);
    FiveSpans(start, bs[0], bs[1], bs[2], bs[3], bs[4]);
    LastLinkSkips(start, bs, 0, 4);
    assert bs[..1] == [bs[0]] && bs[..0] == [];
  }

  /**
   * In that heap the design allows the release of the third block, and an exact fit of the fifth then loses the heap.
   */
  lemma ExactFitAfterRelease(start: uint32, bs: seq<Block>, p: uint32, calls: seq<Call>, more: seq<Call>, quiet: bool)
    requires Place(start) && bs == FiveBlocks(start) && p == start + HEAP_MAX_SIZE - 64
    requires calls == [Free(p)] && more == [Free(p), Malloc(8)]
    ensures Settled(start, bs) && BackLinkRight(start, bs, 4)
    ensures AllAllowed(start, bs, calls, false, quiet)
    ensures Run(start, bs, calls, false, quiet).Some?
    ensures Run(start, bs, more, false, quiet) == None
  {
    FiveSettled(start);
    LiveIndexOf(start, bs, 2);
    SuccessorGoesStale(start, bs, 2, 4, quiet);
    FreedSpan(start, bs, 2);
    var bs' := Freed(start, bs, 2);
    FiveAfter(start, bs, bs');
    LosesHeap(start, bs', 4, 8, quiet);
    RunTwo(start, bs, Free(p), Malloc(8), quiet);
    RunFrom(start, bs, Free(p), bs', calls, [], quiet);
  }

  lemma FiveAfter(start: int, bs: seq<Block>, bs': seq<Block>)
    requires |bs| == 5 && bs[0].size > 8 && bs[1].used && bs[2].size > 8 && bs[3].used && bs[4].size == 8 && !bs[4].used
    requires 0 <= LastLink(start, bs[..2]) < TWO32 && bs' == Freed(start, bs, 2)
    ensures |bs'| == 5 && bs'[4] == bs[4]
    ensures forall j :: 0 <= j < |bs'| && j != 4 && Fits(bs'[j], 8) ==> 8 < bs'[j].size
  {
  }

  lemma FiveSpans(start: int, f: Block, u: Block, v: Block, w: Block, g: Block)
    ensures Span([f, u, v, w, g]) == f.size + u.size as int + v.size + w.size + g.size + 5 * OVERHEAD
    ensures Addr(start, [f, u, v, w, g], 2) == start + f.size + u.size + 2 * OVERHEAD
    ensures Addr(start, [f, u, v, w, g], 4) == start + f.size + u.size + v.size + w.size + 4 * OVERHEAD
  {
    var bs := [f, u, v, w, g];
    AddrNext(start, bs, 0);
    AddrNext(start, bs, 1);
    AddrNext(start, bs, 2);
    AddrNext(start, bs, 3);
    AddrNext(start, bs, 4);
    assert bs[..0] == [] && bs[..5] == bs;
  }

  /** Four requests, as the fresh heap serves them. */
  function FourServed(start: uint32): (bs: seq<Block>)
    ensures |bs| == 5
  {
    [Block(HEAP_MAX_SIZE - 136, false, 0), Block(8, true, start), Block(16, true, start), Block(8, true, start),
     Block(8, true, start)]
  }

  lemma ServeFour(start: uint32, rest: seq<Call>, quiet: bool)
    requires Place(start)
    ensures Settled(start, Initial()) && Settled(start, FourServed(start))
    ensures var calls := [Malloc(8)] + ([Malloc(8)] + ([Malloc(16)] + ([Malloc(8)] + rest)));
            && Run(start, Initial(), calls, false, quiet) == Run(start, FourServed(start), rest, false, quiet)
            && (AllAllowed(start, Initial(), calls, false, quiet) <==>
               AllAllowed(start, FourServed(start), rest, false, quiet))
  {
    var b8, b16 := Block(8, true, start), Block(16, true, start);
    var f0, f1 := Block(HEAP_MAX_SIZE, false, 0), Block(HEAP_MAX_SIZE - 32, false, 0);
    var f2, f3 := Block(HEAP_MAX_SIZE - 64, false, 0), Block(HEAP_MAX_SIZE - 104, false, 0);
    var f4 := Block(HEAP_MAX_SIZE - 136, false, 0);
    var r1 := [b8] + [];
    var r2 := [b8] + r1;
    var r3 := [b16] + r2;
    var r4 := [b8] + r3;
    InitialSettled(start);
    assert Initial() == [f0] + [] && FourServed(start) == [f4] + r4;
    FrontSplit(start, f0, [], 8, f1, r1, quiet);
    FrontSplit(start, f1, r1, 8, f2, r2, quiet);
    FrontSplit(start, f2, r2, 16, f3, r3, quiet);
    FrontSplit(start, f3, r3, 8, f4, r4, quiet);
    var c3 := [Malloc(8)] + rest;
    var c2 := [Malloc(16)] + c3;
    var c1 := [Malloc(8)] + c2;
    RunFrom(start, [f3] + r3, Malloc(8), [f4] + r4, c3, rest, quiet);
    RunFrom(start, [f2] + r2, Malloc(16), [f3] + r3, c2, c3, quiet);
    RunFrom(start, [f1] + r1, Malloc(8), [f2] + r2, c1, c2, quiet);
    RunFrom(start, [f0] + [], Malloc(8), [f1] + r1, [Malloc(8)] + c1, c1, quiet);
  }

  /** Releasing the first of the four gives the heap in which every link is right. */
  lemma ReleaseOldest(start: uint32, quiet: bool)
    requires Place(start) && Settled(start, FourServed(start))
    ensures Allowed(start, FourServed(start), Free(start + HEAP_MAX_SIZE + 8), false)
    ensures Next(start, FourServed(start), Free(start + HEAP_MAX_SIZE + 8), false, quiet) == Some(FiveBlocks(start))
  {
    var bs := FourServed(start);
    FiveSpans(start, bs[0], bs[1], bs[2], bs[3], bs[4]);
    LastLinkSkips(start, bs, 0, 4);
    assert bs[..1] == [bs[0]] && bs[..0] == [];
    LiveIndexOf(start, bs, 4);
    FreeBetween(start, bs, 4, false, quiet);
    assert Freed(start, bs, 4) == FiveBlocks(start);
  }

  /** The two runs from the fresh heap and from where its first calls lead, step by step. */
  lemma FromFour(start: uint32, four: seq<Block>, five: seq<Block>, p: uint32, rest: seq<Call>, rest': seq<Call>,
                 calls: seq<Call>, quiet: bool)
    requires Place(start) && four == FourServed(start) && five == FiveBlocks(start) && p == start + HEAP_MAX_SIZE + 8
    requires rest' == [Free(p)] + rest && calls == [Malloc(8)] + ([Malloc(8)] + ([Malloc(16)] + ([Malloc(8)] + rest')))
    ensures Settled(start, Initial()) && Settled(start, five)
    ensures Run(start, Initial(), calls, false, quiet) == Run(start, five, rest, false, quiet)
    ensures AllAllowed(start, Initial(), calls, false, quiet) <==> AllAllowed(start, five, rest, false, quiet)
  {
    ServeFour(start, rest', quiet);
    OldestGone(start, four, five, p, rest, rest', quiet);
  }

  lemma OldestGone(start: uint32, four: seq<Block>, five: seq<Block>, p: uint32, rest: seq<Call>, rest': seq<Call>,
                   quiet: bool)
    requires Place(start) && four == FourServed(start) && five == FiveBlocks(start) && p == start + HEAP_MAX_SIZE + 8
    requires rest' == [Free(p)] + rest && Settled(start, four)
    ensures Settled(start, five)
    ensures Run(start, four, rest', false, quiet) == Run(start, five, rest, false, quiet)
    ensures AllAllowed(start, four, rest', false, quiet) <==> AllAllowed(start, five, rest, false, quiet)
  {
    ReleaseOldest(start, quiet);
    RunFrom(start, four, Free(p), five, rest', rest, quiet);
  }

  /**
   * From the fresh heap, with calls the design allows: four requests, the release of the first and of the third, and a
   * fifth request, an exact fit of the first one's block, which loses the heap.
   */
  lemma ExactFitFromInit(start: uint32, p1: uint32, p3: uint32, calls: seq<Call>, more: seq<Call>, quiet: bool)
    requires Place(start) && p1 == start + HEAP_MAX_SIZE + 8 && p3 == start + HEAP_MAX_SIZE - 64
    requires calls == [Malloc(8), Malloc(8), Malloc(16), Malloc(8), Free(p1), Free(p3)]
    requires more == calls + [Malloc(8)]
    ensures Settled(start, Initial())
    ensures AllAllowed(start, Initial(), calls, false, quiet)
    ensures Run(start, Initial(), calls, false, quiet).Some?
    ensures Run(start, Initial(), more, false, quiet) == None
  {
    var four, five, r, r' := FourServed(start), FiveBlocks(start), [Free(p3)], [Free(p3), Malloc(8)];
    ExactFitAfterRelease(start, five, p3, r, r', quiet);
    SixCalls(p1, r, [Free(p1)] + r, calls);
    SixCalls(p1, r', [Free(p1)] + r', more);
    FromFour(start, four, five, p1, r, [Free(p1)] + r, calls, quiet);
    FromFour(start, four, five, p1, r', [Free(p1)] + r', more, quiet);
  }

  lemma SixCalls(p: uint32, rest: seq<Call>, rest': seq<Call>, calls: seq<Call>)
    requires rest' == [Free(p)] + rest && calls == [Malloc(8), Malloc(8), Malloc(16), Malloc(8), Free(p)] + rest
    ensures calls == [Malloc(8)] + ([Malloc(8)] + ([Malloc(16)] + ([Malloc(8)] + rest')))
  {
  }
}
