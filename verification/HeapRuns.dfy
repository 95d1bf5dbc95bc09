/** Runs of allocations and releases over the blocks of the kernel heap, kernel/kheap.c. */
module HeapRuns {
  import opened Words
  import opened HeapBlocks
  import opened HeapMemory
  import opened HeapOps
  import opened HeapFaults
  import opened HeapRelease

  /** `ROUND_UP_4` in 32-bit arithmetic. */
  function RoundUp4(x: uint32): uint32 {
    var padded := Add(x, 3);
    padded - padded % 4
  }

  /** The macro writes it `(x + 3) & ~3`. */
  lemma RoundUp4IsMasking(x: uint32, mask: uint32)
    requires mask == 3
    ensures And(Add(x, mask), Not(mask, 32)) == RoundUp4(x)
  {
    TwoTo32();
    assert Pow2(2) == 4;
    AndNotLowBits(Add(x, mask), 2, 32, mask);
  }

  /** A request is rounded up to a multiple of four, except the last three sizes, which become zero. */
  lemma RoundUp4Value(x: uint32)
    ensures RoundUp4(x) % 4 == 0
    ensures x <= 0xFFFF_FFFC ==> x <= RoundUp4(x) < x as int + 4
    ensures x > 0xFFFF_FFFC ==> RoundUp4(x) == 0
  {
  }

  // ------------------------------------------------------------------
  // When an allocation is sound
  // ------------------------------------------------------------------

  /**
   * The allocation from block `k` keeps the heap a heap: an exact fit whose back link is right, or a split of a
   * nonzero request that leaves room for a block of its own.
   */
  predicate AllocSound(start: int, bs: seq<Block>, k: nat, request: uint32)
    requires k < |bs|
  {
    if bs[k].size == request then BackLinkRight(start, bs, k)
    else 0 < request && request as int + OVERHEAD < bs[k].size
  }

  /** The blocks after a sound allocation from block `k`. */
  function Allocated(start: int, bs: seq<Block>, k: nat, request: uint32): seq<Block>
    requires k < |bs| && AllocSound(start, bs, k, request) && 0 <= Addr(start, bs, k) < TWO32
  {
    if bs[k].size == request then TakeWhole(bs, k) else Split(start, bs, k, request)
  }

  // ------------------------------------------------------------------
  // Calls
  // ------------------------------------------------------------------

  datatype Call = Malloc(size: uint32) | Free(ptr: uint32)

  /** The blocks tile the heap's memory. */
  predicate Tiled(start: int, bs: seq<Block>) {
    Place(start) && bs != [] && Span(bs) == HEAP_MAX_SIZE + OVERHEAD
  }

  /** Index of the live block whose payload starts at `ptr`, -1 when there is none. */
  function LiveIndex(start: int, bs: seq<Block>, ptr: int): (r: int)
    ensures -1 <= r < |bs|
    ensures r >= 0 ==> bs[r].used && Addr(start, bs, r) + HEADER == ptr
    ensures r < 0 ==> forall j: nat :: j < |bs| && bs[j].used ==> Addr(start, bs, j) + HEADER != ptr
  {
    if bs == [] then -1
    else
      var n := |bs| - 1;
      assert forall j: nat :: j <= n ==> bs[..n][..j] == bs[..j];
      if bs[n].used && Addr(start, bs, n) + HEADER == ptr then n else LiveIndex(start, bs[..n], ptr)
  }

  lemma LiveIndexOf(start: int, bs: seq<Block>, i: nat)
    requires i < |bs| && bs[i].used
    ensures LiveIndex(start, bs, Addr(start, bs, i) + HEADER) == i
  {
    var j := LiveIndex(start, bs, Addr(start, bs, i) + HEADER);
    if j < i {
      AddrOrder(start, bs, j, i);
    } else if i < j {
      AddrOrder(start, bs, i, j);
    }
  }

  /**
   * The blocks after a call, or nothing when the code leaves no heap behind or the pointer is not one it handed out. A
   * release of the first block also depends on what lies below the heap: whether that is `quiet`.
   */
  function Next(start: uint32, bs: seq<Block>, call: Call, repaired: bool, quiet: bool): (r: Option<seq<Block>>)
    requires Tiled(start, bs)
  {
    match call
    case Malloc(size) =>
      var k := Best(bs, RoundUp4(size));
      if size == 0 || k < 0 then Some(bs)
      else
        AddrBounds(start, bs, k);
        if AllocSound(start, bs, k, RoundUp4(size)) then Some(Allocated(start, bs, k, RoundUp4(size))) else None
    case Free(ptr) =>
      var i := LiveIndex(start, bs, ptr);
      if !(start <= ptr <= start + HEAP_MAX_SIZE + OVERHEAD) then Some(bs)
      else if i >= 0 && ReleaseSound(bs, i, repaired, quiet) then Some(Released(start, bs, i)) else None
  }

  // ------------------------------------------------------------------
  // Live payloads
  // ------------------------------------------------------------------

  /** A payload of `size` bytes at `ptr` is handed out. */
  predicate IsLive(a: int, bs: seq<Block>, ptr: int, size: int)
    decreases bs
  {
    bs != [] && ((bs[0].used && ptr == a + HEADER && size == bs[0].size)
                 || IsLive(a + bs[0].size + OVERHEAD, bs[1..], ptr, size))
  }

  lemma {:induction false} LiveConcat(a: int, l: seq<Block>, r: seq<Block>, ptr: int, size: int)
    ensures IsLive(a, l + r, ptr, size) <==> IsLive(a, l, ptr, size) || IsLive(a + Span(l), r, ptr, size)
    decreases l
  {
    if l == [] {
      assert l + r == r;
    } else {
      LiveConcat(a + l[0].size + OVERHEAD, l[1..], r, ptr, size);
      assert (l + r)[1..] == l[1..] + r;
    }
  }

  lemma LiveParts(a: int, l: seq<Block>, b: Block, r: seq<Block>, ptr: int, size: int)
    ensures IsLive(a, l + [b] + r, ptr, size) <==>
            || IsLive(a, l, ptr, size)
            || (b.used && ptr == a + Span(l) + HEADER && size == b.size)
            || IsLive(a + Span(l) + b.size + OVERHEAD, r, ptr, size)
  {
    assert l + [b] + r == l + ([b] + r);
    LiveConcat(a, l, [b] + r, ptr, size);
    assert ([b] + r)[1..] == r;
  }

  lemma {:induction false} LiveIsBlock(a: int, bs: seq<Block>, ptr: int, size: int) returns (j: nat)
    requires IsLive(a, bs, ptr, size)
    ensures j < |bs| && bs[j].used && ptr == Addr(a, bs, j) + HEADER && size == bs[j].size
    decreases bs
  {
    if bs[0].used && ptr == a + HEADER && size == bs[0].size {
      j := 0;
    } else {
      var i := LiveIsBlock(a + bs[0].size + OVERHEAD, bs[1..], ptr, size);
      j := i + 1;
      assert bs[..j][1..] == bs[1..][..i];
    }
  }

  lemma BlockIsLive(a: int, bs: seq<Block>, j: nat)
    requires j < |bs| && bs[j].used
    ensures IsLive(a, bs, Addr(a, bs, j) + HEADER, bs[j].size)
  {
    assert bs == bs[..j] + [bs[j]] + bs[j + 1..];
    LiveParts(a, bs[..j], bs[j], bs[j + 1..], Addr(a, bs, j) + HEADER, bs[j].size);
  }

  /** Live payloads do not overlap, and leave room for the tags between them. */
  lemma LiveDisjoint(a: int, bs: seq<Block>, p: int, s: int, q: int, t: int)
    requires IsLive(a, bs, p, s) && IsLive(a, bs, q, t) && p <= q
    ensures (p == q && s == t) || p + s + OVERHEAD <= q
  {
    var i := LiveIsBlock(a, bs, p, s);
    var j := LiveIsBlock(a, bs, q, t);
    if i < j {
      AddrOrder(a, bs, i, j);
    } else if j < i {
      AddrOrder(a, bs, j, i);
    }
  }

  // ------------------------------------------------------------------
  // What every sound call keeps
  // ------------------------------------------------------------------

  predicate Good(b: Block) {
    0 < b.size && b.size % 4 == 0 && b.prev % 4 == 0
  }

  predicate AllGood(bs: seq<Block>) {
    forall b :: b in bs ==> Good(b)
  }

  /** No two neighbours are both free. */
  predicate NoPairs(bs: seq<Block>) {
    forall j, k :: 0 <= j < |bs| && 0 <= k < |bs| && k == j + 1 ==> bs[j].used || bs[k].used
  }

  predicate LastUsed(l: seq<Block>) {
    l == [] || l[|l| - 1].used
  }

  predicate FirstUsed(r: seq<Block>) {
    r == [] || r[0].used
  }

  lemma NoPairsParts(l: seq<Block>, b: Block, r: seq<Block>)
    ensures NoPairs(l + [b] + r) <==> NoPairs(l) && NoPairs(r) && (b.used || (LastUsed(l) && FirstUsed(r)))
  {
    if NoPairs(l + [b] + r) {
      NoPairsApart(l, b, r, l + [b] + r);
    } else {
      PairSomewhere(l, b, r, l + [b] + r);
    }
  }

  lemma NoPairsApart(l: seq<Block>, b: Block, r: seq<Block>, bs: seq<Block>)
    requires bs == l + [b] + r && NoPairs(bs)
    ensures NoPairs(l) && NoPairs(r) && (b.used || (LastUsed(l) && FirstUsed(r)))
  {
    var n := |l|;
    forall j, k | 0 <= j && k == j + 1 && k < |r|
      ensures r[j].used || r[k].used
    {
      assert bs[n + 1 + j].used || bs[n + 1 + k].used;
    }
    forall j, k | 0 <= j && k == j + 1 && k < |l|
      ensures l[j].used || l[k].used
    {
      assert bs[j].used || bs[k].used;
    }
    assert n > 0 ==> bs[n - 1].used || bs[n].used;
    assert |r| > 0 ==> bs[n].used || bs[n + 1].used;
  }

  lemma PairSomewhere(l: seq<Block>, b: Block, r: seq<Block>, bs: seq<Block>)
    requires bs == l + [b] + r && !NoPairs(bs)
    ensures !(NoPairs(l) && NoPairs(r) && (b.used || (LastUsed(l) && FirstUsed(r))))
  {
    var n := |l|;
    var j, k :| 0 <= j && k == j + 1 && k < |bs| && !bs[j].used && !bs[k].used;
    if j > n {
      assert !r[j - n - 1].used && !r[k - n - 1].used;
    } else if j < n - 1 {
      assert !l[j].used && !l[k].used;
    }
  }

  /** The blocks tile the heap, all tags are at aligned addresses, and the free blocks are coalesced. */
  predicate Settled(start: int, bs: seq<Block>) {
    Tiled(start, bs) && AllGood(bs) && NoPairs(bs)
  }

  lemma SettledParts(start: int, l: seq<Block>, b: Block, r: seq<Block>)
    ensures Settled(start, l + [b] + r) <==>
            && Place(start) && Span(l) + b.size + OVERHEAD + Span(r) == HEAP_MAX_SIZE + OVERHEAD
            && AllGood(l) && Good(b) && AllGood(r)
            && NoPairs(l) && NoPairs(r) && (b.used || (LastUsed(l) && FirstUsed(r)))
  {
    SpanAround(l, b, r);
    NoPairsParts(l, b, r);
    if AllGood(l + [b] + r) {
      assert b in l + [b] + r;
      assert AllGood(l) && AllGood(r);
    }
  }

  lemma {:induction false} SpanAligned(bs: seq<Block>)
    requires AllGood(bs)
    ensures Span(bs) % 4 == 0
  {
    if bs != [] {
      assert bs[0] in bs;
      SpanAligned(bs[1..]);
    }
  }

  lemma LastLinkAligned(start: int, bs: seq<Block>)
    requires AllGood(bs) && bs != [] && start % 4 == 0
    ensures LastLink(start, bs) % 4 == 0
  {
    var j := LastLinkIsBlock(start, bs);
    SpanAligned(bs[..j]);
  }

  // ------------------------------------------------------------------
  // Allocation
  // ------------------------------------------------------------------

  /** What an allocation changes: one payload of `size` bytes at `ptr` becomes live. */
  ghost predicate AddsLive(start: int, bs: seq<Block>, bs': seq<Block>, ptr: int, size: int) {
    && (forall p, s :: IsLive(start, bs', p, s) <==> IsLive(start, bs, p, s) || (p == ptr && s == size))
    && forall s :: !IsLive(start, bs, ptr, s)
  }

  lemma SplitSettled(start: int, l: seq<Block>, b: Block, r: seq<Block>, b1: Block, b2: Block, r': seq<Block>)
    requires Settled(start, l + [b] + r) && !b.used && !b1.used && b2.used && Good(b1) && Good(b2)
    requires b1.size as int + OVERHEAD + b2.size == b.size && r' == [b2] + r
    ensures Settled(start, l + [b1] + r')
  {
    SettledParts(start, l, b, r);
    assert [] + [b2] + r == r';
    SpanAround([], b2, r);
    NoPairsParts([], b2, r);
    SettledParts(start, l, b1, r');
  }

  lemma SplitLive(start: int, l: seq<Block>, b: Block, r: seq<Block>, b1: Block, b2: Block, r': seq<Block>, p: int,
                  s: int)
    requires !b.used && !b1.used && b2.used && b1.size as int + OVERHEAD + b2.size == b.size && r' == [b2] + r
    ensures IsLive(start, l + [b1] + r', p, s) <==>
            IsLive(start, l + [b] + r, p, s) || (p == start + Span(l) + b1.size + OVERHEAD + HEADER && s == b2.size)
  {
    LiveParts(start, l, b, r, p, s);
    LiveParts(start, l, b1, r', p, s);
    assert r'[1..] == r;
  }

  lemma SplitAdds(start: int, l: seq<Block>, b: Block, r: seq<Block>, b1: Block, b2: Block, r': seq<Block>)
    requires !b.used && !b1.used && b2.used && b1.size as int + OVERHEAD + b2.size == b.size && r' == [b2] + r
    ensures AddsLive(start, l + [b] + r, l + [b1] + r', start + Span(l) + b1.size + OVERHEAD + HEADER, b2.size)
  {
    var ptr := start + Span(l) + b1.size + OVERHEAD + HEADER;
    forall p, s
      ensures IsLive(start, l + [b1] + r', p, s) <==> IsLive(start, l + [b] + r, p, s) || (p == ptr && s == b2.size)
    {
      SplitLive(start, l, b, r, b1, b2, r', p, s);
    }
    InsideFree(start, l, b, r, ptr);
  }

  /** No live payload starts inside a free block. */
  lemma InsideFree(start: int, l: seq<Block>, b: Block, r: seq<Block>, ptr: int)
    requires !b.used && start + Span(l) <= ptr < start + Span(l) + b.size + OVERHEAD
    ensures forall s :: !IsLive(start, l + [b] + r, ptr, s)
  {
    var bs := l + [b] + r;
    assert bs[..|l|] == l && bs[|l|] == b;
    AddrNext(start, bs, |l|);
    forall s
      ensures !IsLive(start, bs, ptr, s)
    {
      if IsLive(start, bs, ptr, s) {
        var j := LiveIsBlock(start, bs, ptr, s);
        if j < |l| {
          AddrOrder(start, bs, j, |l|);
        } else if |l| < j {
          AddrOrder(start, bs, |l|, j);
        }
      }
    }
  }

  lemma SetPrevKeeps(bs: seq<Block>, prev: uint32)
    requires AllGood(bs) && NoPairs(bs) && prev % 4 == 0
    ensures AllGood(SetPrev(bs, prev)) && NoPairs(SetPrev(bs, prev)) && FirstUsed(SetPrev(bs, prev)) == FirstUsed(bs)
  {
    var bs' := SetPrev(bs, prev);
    if bs != [] {
      assert bs[0] in bs;
      forall b | b in bs'
        ensures Good(b)
      {
        var j :| 0 <= j < |bs'| && bs'[j] == b;
        SetPrevAt(bs, prev, j);
        assert bs[j] in bs;
      }
    }
  }

  lemma {:induction false} SetPrevAt(bs: seq<Block>, prev: uint32, j: nat)
    requires j < |bs|
    ensures SetPrev(bs, prev)[j] == bs[j] || SetPrev(bs, prev)[j] == bs[j].(prev := prev)
  {
    if bs[0].used && j > 0 {
      SetPrevAt(bs[1..], prev, j - 1);
    }
  }

  lemma {:induction false} SetPrevLive(a: int, bs: seq<Block>, prev: uint32, p: int, s: int)
    ensures IsLive(a, SetPrev(bs, prev), p, s) <==> IsLive(a, bs, p, s)
    decreases bs
  {
    if bs != [] {
      if bs[0].used {
        SetPrevLive(a + bs[0].size + OVERHEAD, bs[1..], prev, p, s);
        assert ([bs[0]] + SetPrev(bs[1..], prev))[1..] == SetPrev(bs[1..], prev);
      } else {
        assert ([bs[0].(prev := prev)] + bs[1..])[1..] == bs[1..];
      }
    }
  }

  lemma TakeSettled(start: int, l: seq<Block>, b: Block, r: seq<Block>, b': Block, r': seq<Block>)
    requires Settled(start, l + [b] + r) && !b.used && b' == b.(used := true) && r' == SetPrev(r, b.prev)
    ensures Settled(start, l + [b'] + r')
  {
    SettledParts(start, l, b, r);
    SetPrevKeeps(r, b.prev);
    SettledParts(start, l, b', r');
  }

  lemma TakeAdds(start: int, l: seq<Block>, b: Block, r: seq<Block>, b': Block, r': seq<Block>)
    requires !b.used && b' == b.(used := true) && r' == SetPrev(r, b.prev)
    ensures AddsLive(start, l + [b] + r, l + [b'] + r', start + Span(l) + HEADER, b.size)
  {
    forall p, s
      ensures IsLive(start, l + [b'] + r', p, s) <==>
              IsLive(start, l + [b] + r, p, s) || (p == start + Span(l) + HEADER && s == b.size)
    {
      LiveParts(start, l, b, r, p, s);
      LiveParts(start, l, b', r', p, s);
      SetPrevLive(start + Span(l) + b.size + OVERHEAD, r, b.prev, p, s);
    }
    InsideFree(start, l, b, r, start + Span(l) + HEADER);
  }

  lemma TakenLive(start: int, bs: seq<Block>, k: nat)
    requires Settled(start, bs) && k < |bs| && !bs[k].used
    ensures Settled(start, TakeWhole(bs, k))
    ensures AddsLive(start, bs, TakeWhole(bs, k), Addr(start, bs, k) + HEADER, bs[k].size)
  {
    var l, b, r := bs[..k], bs[k], bs[k + 1..];
    assert bs == l + [b] + r;
    var b', r' := b.(used := true), SetPrev(r, b.prev);
    assert TakeWhole(bs, k) == l + [b'] + r';
    TakeSettled(start, l, b, r, b', r');
    TakeAdds(start, l, b, r, b', r');
  }

  lemma SplitGood(start: int, l: seq<Block>, b: Block, r: seq<Block>, b1: Block, b2: Block)
    requires Settled(start, l + [b] + r) && b1.size as int + OVERHEAD + b2.size == b.size
    requires 0 < b1.size && b1.prev == b.prev && 0 < b2.size && b2.size % 4 == 0 && b2.prev == start + Span(l)
    ensures Good(b1) && Good(b2)
  {
    assert Good(b) && AllGood(l) && start % 4 == 0 by {
      SettledParts(start, l, b, r);
    }
    assert b2.prev % 4 == 0 by {
      SpanAligned(l);
      AlignedSum(start, Span(l), b2.prev);
    }
    AlignedSum(b1.size as int + OVERHEAD, b2.size, b.size);
  }

  /** Of two addends and their sum, if two are multiples of four so is the third. */
  lemma AlignedSum(x: int, y: int, z: int)
    requires x + y == z && y % 4 == 0
    ensures x % 4 == 0 <==> z % 4 == 0
  {
  }

  lemma SplitOffLive(start: int, bs: seq<Block>, k: nat, request: uint32)
    requires Settled(start, bs) && k < |bs| && !bs[k].used && 0 <= Addr(start, bs, k) < TWO32
    requires 0 < request && request % 4 == 0 && request as int + OVERHEAD < bs[k].size
    ensures Settled(start, Split(start, bs, k, request))
    ensures AddsLive(start, bs, Split(start, bs, k, request), Addr(start, bs, k) + bs[k].size - request + HEADER,
            request)
  {
    var l, b, r := bs[..k], bs[k], bs[k + 1..];
    assert bs == l + [b] + r;
    var b1, b2 := b.(size := b.size - request - OVERHEAD), Block(request, true, Addr(start, bs, k));
    var r' := [b2] + r;
    assert Split(start, bs, k, request) == l + [b1] + r';
    SplitGood(start, l, b, r, b1, b2);
    SplitSettled(start, l, b, r, b1, b2, r');
    SplitAdds(start, l, b, r, b1, b2, r');
  }

  /**
   * A sound allocation keeps the blocks settled and makes exactly one new payload live: of the rounded size, clear of
   * every live payload, carved from the end of the best fit.
   */
  lemma AllocatedLive(start: int, bs: seq<Block>, k: nat, request: uint32)
    requires Settled(start, bs) && k < |bs| && Fits(bs[k], request) && request % 4 == 0
    requires AllocSound(start, bs, k, request) && 0 <= Addr(start, bs, k) < TWO32
    ensures Settled(start, Allocated(start, bs, k, request))
    ensures AddsLive(start, bs, Allocated(start, bs, k, request),
                     Addr(start, bs, k) + bs[k].size - request + HEADER, request)
  {
    if bs[k].size == request {
      TakenLive(start, bs, k);
    } else {
      SplitOffLive(start, bs, k, request);
    }
  }

  // ------------------------------------------------------------------
  // Release
  // ------------------------------------------------------------------

  /** What a release changes: the payload at `ptr` is no longer live. */
  ghost predicate DropsLive(start: int, bs: seq<Block>, bs': seq<Block>, ptr: int) {
    forall p, s :: IsLive(start, bs', p, s) <==> IsLive(start, bs, p, s) && p != ptr
  }

  /** Absorbing a free block into the free block before it. */
  lemma JoinSettled(start: int, l: seq<Block>, x: Block, y: Block, r: seq<Block>, xy: Block)
    requires Place(start) && AllGood(l) && Good(x) && Good(y) && AllGood(r) && NoPairs(l) && NoPairs(r)
    requires Span(l) + x.size + OVERHEAD + y.size + OVERHEAD + Span(r) == HEAP_MAX_SIZE + OVERHEAD
    requires x.size as int + OVERHEAD + y.size < TWO32 && xy == x.(size := x.size + OVERHEAD + y.size)
    requires !x.used && LastUsed(l) && FirstUsed(r)
    ensures Settled(start, l + [xy] + r)
  {
    SettledParts(start, l, xy, r);
  }

  lemma JoinLive(start: int, l: seq<Block>, x: Block, y: Block, r: seq<Block>, xy: Block, p: int, s: int)
    requires x.size as int + OVERHEAD + y.size < TWO32 && xy == x.(size := x.size + OVERHEAD + y.size)
    requires !x.used && !y.used
    ensures IsLive(start, l + [xy] + r, p, s) <==> IsLive(start, l + [x, y] + r, p, s)
  {
    LiveParts(start, l, xy, r, p, s);
    assert l + [x, y] + r == l + [x] + ([y] + r);
    LiveParts(start, l, x, [y] + r, p, s);
    assert ([y] + r)[1..] == r;
  }

  /** A free block and the settled blocks on both sides of it. */
  ghost predicate Loose(start: int, l: seq<Block>, f: Block, r: seq<Block>) {
    && Place(start) && AllGood(l) && Good(f) && AllGood(r) && NoPairs(l) && NoPairs(r)
    && Span(l) + f.size + OVERHEAD + Span(r) == HEAP_MAX_SIZE + OVERHEAD
    && !f.used
  }

  lemma MergedLive(start: int, bs: seq<Block>, i: nat, p: int, s: int)
    requires i + 1 < |bs| && !bs[i].used && !bs[i + 1].used && bs[i].size as int + OVERHEAD + bs[i + 1].size < TWO32
    ensures IsLive(start, Merge(bs, i), p, s) <==> IsLive(start, bs, p, s)
  {
    assert bs == bs[..i] + [bs[i], bs[i + 1]] + bs[i + 2..];
    var xy := bs[i].(size := bs[i].size + OVERHEAD + bs[i + 1].size);
    JoinLive(start, bs[..i], bs[i], bs[i + 1], bs[i + 2..], xy, p, s);
  }

  /** After the right merge nothing free follows the block. */
  lemma LooseRight(start: int, l: seq<Block>, f: Block, r: seq<Block>, bs: seq<Block>)
    requires Loose(start, l, f, r) && bs == l + [f] + r && !FirstUsed(r)
    ensures RightFree(bs, |l|) && f.size as int + OVERHEAD + r[0].size < TWO32
    ensures var f' := f.(size := f.size + OVERHEAD + r[0].size);
            Merge(bs, |l|) == l + [f'] + r[1..] && Loose(start, l, f', r[1..]) && FirstUsed(r[1..])
  {
    var y, r' := r[0], r[1..];
    assert r == [] + [y] + r';
    NoPairsParts([], y, r');
    SpanAround([], y, r');
    assert y in r;
  }

  /** After the left merge the blocks are settled. */
  lemma LooseLeft(start: int, l: seq<Block>, f: Block, r: seq<Block>, bs: seq<Block>)
    requires Loose(start, l, f, r) && bs == l + [f] + r && FirstUsed(r)
    ensures Tiled(start, bs) && Settled(start, MergeLeft(bs, |l|))
    ensures l != [] ==> MergeLeft(bs, |l|)[0].prev == l[0].prev && MergeLeft(bs, |l|)[0].used == l[0].used
    ensures forall p, s :: IsLive(start, MergeLeft(bs, |l|), p, s) <==> IsLive(start, bs, p, s)
  {
    SpanAround(l, f, r);
    if LeftFree(bs, |l|) {
      var n := |l| - 1;
      var l', x := l[..n], l[n];
      assert l == l' + [x] + [];
      NoPairsParts(l', x, []);
      SpanAround(l', x, []);
      assert x in l;
      PairFits(bs, n);
      var xf := x.(size := x.size + OVERHEAD + f.size);
      assert MergeLeft(bs, |l|) == l' + [xf] + r;
      JoinSettled(start, l', x, f, r, xf);
      forall p, s
        ensures IsLive(start, MergeLeft(bs, |l|), p, s) <==> IsLive(start, bs, p, s)
      {
        MergedLive(start, bs, n, p, s);
      }
    } else {
      SettledParts(start, l, f, r);
    }
  }

  lemma CoalescedSettled(start: int, l: seq<Block>, f: Block, r: seq<Block>, bs: seq<Block>)
    requires Loose(start, l, f, r) && bs == l + [f] + r
    ensures Tiled(start, bs) && Settled(start, Coalesced(bs, |l|))
    ensures l != [] ==> Coalesced(bs, |l|)[0].prev == l[0].prev && Coalesced(bs, |l|)[0].used == l[0].used
    ensures forall p, s :: IsLive(start, Coalesced(bs, |l|), p, s) <==> IsLive(start, bs, p, s)
  {
    SpanAround(l, f, r);
    if FirstUsed(r) {
      LooseLeft(start, l, f, r, bs);
    } else {
      LooseRight(start, l, f, r, bs);
      MergeSpan(bs, |l|);
      LooseLeft(start, l, f.(size := f.size + OVERHEAD + r[0].size), r[1..], Merge(bs, |l|));
      forall p, s
        ensures IsLive(start, Merge(bs, |l|), p, s) <==> IsLive(start, bs, p, s)
      {
        MergedLive(start, bs, |l|, p, s);
      }
    }
  }

  lemma LiveRange(a: int, bs: seq<Block>, p: int, s: int)
    requires IsLive(a, bs, p, s)
    ensures 0 <= s && a + HEADER <= p && p + s + TRAILER <= a + Span(bs)
  {
    var j := LiveIsBlock(a, bs, p, s);
    AddrBounds(a, bs, j);
  }

  /** Replacing a live block by free ones of the same span. */
  lemma DroppedLive(start: int, l: seq<Block>, b: Block, r: seq<Block>, f: Block, p: int, s: int)
    requires b.used && !f.used && f.size == b.size
    ensures IsLive(start, l + [f] + r, p, s) <==> IsLive(start, l + [b] + r, p, s) && p != start + Span(l) + HEADER
  {
    LiveParts(start, l, b, r, p, s);
    LiveParts(start, l, f, r, p, s);
    if IsLive(start, l, p, s) {
      LiveRange(start, l, p, s);
    }
    if IsLive(start + Span(l) + b.size + OVERHEAD, r, p, s) {
      LiveRange(start + Span(l) + b.size + OVERHEAD, r, p, s);
    }
  }

  lemma ConsParts(y: Block, r: seq<Block>, r': seq<Block>)
    requires r' == [y] + r && AllGood(r') && NoPairs(r') && !y.used
    ensures Good(y) && AllGood(r) && NoPairs(r) && FirstUsed(r) && Span(r') == y.size + OVERHEAD + Span(r)
  {
    assert r' == [] + [y] + r;
    NoPairsParts([], y, r);
    assert y in r' && r'[1..] == r;
  }

  lemma FirstReleasedSettled(start: uint32, bs: seq<Block>, b: Block, y: Block, r: seq<Block>, r': seq<Block>,
                             xy: Block)
    requires Settled(start, bs) && bs == [] + [b] + r' && r' == [y] + r && b.used && !y.used
    requires b.size as int + OVERHEAD + y.size < TWO32 && xy == Block(b.size + OVERHEAD + y.size, false, start)
    ensures Settled(start, [] + [xy] + r)
  {
    SettledParts(start, [], b, r');
    ConsParts(y, r, r');
    JoinSettled(start, [], Block(b.size, false, start), y, r, xy);
  }

  lemma FirstReleased(start: uint32, bs: seq<Block>, b: Block, y: Block, r: seq<Block>, xy: Block)
    requires Settled(start, bs) && bs == [b, y] + r && b.used && !y.used
    requires b.size as int + OVERHEAD + y.size < TWO32 && xy == Block(b.size + OVERHEAD + y.size, false, start)
    ensures Settled(start, [xy] + r)
    ensures DropsLive(start, bs, [xy] + r, start + HEADER)
  {
    assert Settled(start, [xy] + r) by {
      assert bs == [] + [b] + ([y] + r);
      FirstReleasedSettled(start, bs, b, y, r, [y] + r, xy);
      assert [] + [xy] + r == [xy] + r;
    }
    forall p, s
      ensures IsLive(start, [xy] + r, p, s) <==> IsLive(start, bs, p, s) && p != start + HEADER
    {
      FirstDropped(start, bs, b, y, r, xy, p, s);
    }
  }

  lemma FirstDropped(start: uint32, bs: seq<Block>, b: Block, y: Block, r: seq<Block>, xy: Block, p: int, s: int)
    requires bs == [b, y] + r && b.used && !y.used
    requires b.size as int + OVERHEAD + y.size < TWO32 && xy == Block(b.size + OVERHEAD + y.size, false, start)
    ensures IsLive(start, [xy] + r, p, s) <==> IsLive(start, bs, p, s) && p != start + HEADER
  {
    var f, z := Block(b.size, false, start), start as int + b.size + OVERHEAD + y.size + OVERHEAD;
    assert bs[1..] == [y] + r && bs[1..][1..] == r && ([xy] + r)[1..] == r;
    if IsLive(z, r, p, s) {
      LiveRange(z, r, p, s);
    }
  }

  lemma LaterReleased(start: uint32, bs: seq<Block>, i: nat)
    requires Settled(start, bs) && 0 < i < |bs| && bs[i].used
    ensures Settled(start, Released(start, bs, i))
    ensures DropsLive(start, bs, Released(start, bs, i), Addr(start, bs, i) + HEADER)
    ensures Released(start, bs, i)[0].prev == bs[0].prev && Released(start, bs, i)[0].used == bs[0].used
  {
    FirstLinkRange(start, bs, i);
    var l, b, r := bs[..i], bs[i], bs[i + 1..];
    var f := Block(b.size, false, LastLink(start, l));
    assert bs == l + [b] + r;
    SettledParts(start, l, b, r);
    LastLinkAligned(start, l);
    var bs1 := l + [f] + r;
    assert Loose(start, l, f, r);
    CoalescedSettled(start, l, f, r, bs1);
    assert Released(start, bs, i) == Coalesced(bs1, |l|);
    forall p, s
      ensures IsLive(start, bs1, p, s) <==> IsLive(start, bs, p, s) && p != Addr(start, bs, i) + HEADER
    {
      DroppedLive(start, l, b, r, f, p, s);
    }
  }

  /** A sound release keeps the blocks settled and takes exactly one payload out of the live ones. */
  lemma ReleasedLive(start: uint32, bs: seq<Block>, i: nat)
    requires Settled(start, bs) && i < |bs| && bs[i].used && (i == 0 ==> RightFree(bs, 0))
    ensures Settled(start, Released(start, bs, i))
    ensures DropsLive(start, bs, Released(start, bs, i), Addr(start, bs, i) + HEADER)
  {
    if i == 0 {
      assert bs[..0] == [];
      PairFits(bs, 0);
      assert bs == [bs[0], bs[1]] + bs[2..];
      FirstReleased(start, bs, bs[0], bs[1], bs[2..], FreedFirst(start, bs)[0]);
    } else {
      LaterReleased(start, bs, i);
    }
  }

  // ------------------------------------------------------------------
  // Runs
  // ------------------------------------------------------------------

  /** Every call that leaves a heap keeps it settled. */
  lemma NextSettled(start: uint32, bs: seq<Block>, call: Call, repaired: bool, quiet: bool)
    requires Settled(start, bs)
    ensures var n := Next(start, bs, call, repaired, quiet); n.Some? ==> Settled(start, n.value)
  {
    match call
    case Malloc(size) =>
      var k := Best(bs, RoundUp4(size));
      if size != 0 && k >= 0 {
        AddrBounds(start, bs, k);
        RoundUp4Value(size);
        if AllocSound(start, bs, k, RoundUp4(size)) {
          AllocatedLive(start, bs, k, RoundUp4(size));
        }
      }
    case Free(ptr) =>
      var i := LiveIndex(start, bs, ptr);
      if start <= ptr <= start + HEAP_MAX_SIZE + OVERHEAD && i >= 0 && ReleaseSound(bs, i, repaired, quiet) {
        ReleasedLive(start, bs, i);
      }
  }

  /** The blocks after a run of calls, or nothing once one of them has left no heap. */
  function Run(start: uint32, bs: seq<Block>, calls: seq<Call>, repaired: bool, quiet: bool): (r: Option<seq<Block>>)
    requires Settled(start, bs)
    ensures r.Some? ==> Settled(start, r.value)
    decreases |calls|
  {
    if calls == [] then Some(bs)
    else
      NextSettled(start, bs, calls[0], repaired, quiet);
      match Next(start, bs, calls[0], repaired, quiet)
      case None => None
      case Some(bs') => Run(start, bs', calls[1..], repaired, quiet)
  }

  /** What `heap_init` makes. */
  function Initial(): seq<Block> {
    [Block(HEAP_MAX_SIZE, false, 0)]
  }

  lemma InitialSettled(start: int)
    requires Place(start)
    ensures Settled(start, Initial())
  {
    SpanOne(Initial()[0]);
  }

  /**
   * The calls the design allows: a request that fails, or that leaves room for another block in the one it is carved
   * from; a pointer outside the heap, or a live one, unless only its left neighbour is free and the code is unrepaired.
   */
  predicate Allowed(start: uint32, bs: seq<Block>, call: Call, repaired: bool) {
    match call
    case Malloc(size) =>
      var k := Best(bs, RoundUp4(size));
      size == 0 || k < 0 || (size <= 0xFFFF_FFFC && RoundUp4(size) as int + OVERHEAD < bs[k].size)
    case Free(ptr) =>
      var i := LiveIndex(start, bs, ptr);
      !(start <= ptr <= start + HEAP_MAX_SIZE + OVERHEAD)
      || (i >= 0 && (repaired || !LeftFree(bs, i) || RightFree(bs, i)))
  }

  predicate AllAllowed(start: uint32, bs: seq<Block>, calls: seq<Call>, repaired: bool, quiet: bool)
    requires Settled(start, bs)
    decreases |calls|
  {
    calls == [] || (
      && Allowed(start, bs, calls[0], repaired)
      && (NextSettled(start, bs, calls[0], repaired, quiet);
          var n := Next(start, bs, calls[0], repaired, quiet);
          n.Some? ==> AllAllowed(start, n.value, calls[1..], repaired, quiet)))
  }

  /** The first block is free: no allocation that leaves a rest behind ever hands it out. */
  predicate HeadFree(bs: seq<Block>)
    requires bs != []
  {
    !bs[0].used && bs[0].prev == 0
  }

  lemma AllowedStep(start: uint32, bs: seq<Block>, call: Call, repaired: bool, quiet: bool)
    requires Settled(start, bs) && HeadFree(bs) && Allowed(start, bs, call, repaired)
    ensures var n := Next(start, bs, call, repaired, quiet); n.Some? && n.value != [] && HeadFree(n.value)
  {
    match call
    case Malloc(size) =>
      RoundUp4Value(size);
      var k := Best(bs, RoundUp4(size));
      if size != 0 && k >= 0 {
        AddrBounds(start, bs, k);
      }
    case Free(ptr) =>
      var i := LiveIndex(start, bs, ptr);
      if start <= ptr <= start + HEAP_MAX_SIZE + OVERHEAD {
        LaterReleased(start, bs, i);
      }
  }

  /** Over every run of allowed calls from the start the heap survives, settled, with its first block free. */
  lemma {:induction false} AllowedRun(start: uint32, bs: seq<Block>, calls: seq<Call>, repaired: bool, quiet: bool)
    requires Settled(start, bs) && HeadFree(bs) && AllAllowed(start, bs, calls, repaired, quiet)
    ensures var n := Run(start, bs, calls, repaired, quiet); n.Some? && Settled(start, n.value) && HeadFree(n.value)
    decreases |calls|
  {
    if calls != [] {
      AllowedStep(start, bs, calls[0], repaired, quiet);
      NextSettled(start, bs, calls[0], repaired, quiet);
      AllowedRun(start, Next(start, bs, calls[0], repaired, quiet).value, calls[1..], repaired, quiet);
    }
  }

  // ------------------------------------------------------------------
  // Freeing everything
  // ------------------------------------------------------------------

  ghost predicate LivePtr(start: int, bs: seq<Block>, p: int) {
    exists s :: IsLive(start, bs, p, s)
  }

  /** `ptrs` lists every live pointer once. */
  ghost predicate ListsLive(start: int, bs: seq<Block>, ptrs: seq<uint32>) {
    && (forall j, k :: 0 <= j < k < |ptrs| ==> ptrs[j] != ptrs[k])
    && forall p: uint32 :: p in ptrs <==> LivePtr(start, bs, p)
  }

  function Frees(ptrs: seq<uint32>): (r: seq<Call>)
    ensures |r| == |ptrs|
  {
    if ptrs == [] then [] else [Free(ptrs[0])] + Frees(ptrs[1..])
  }

  /** Settled blocks none of which is live are one free block that fills the heap. */
  lemma NoneLive(start: int, bs: seq<Block>)
    requires Settled(start, bs) && HeadFree(bs) && forall p, s :: !IsLive(start, bs, p, s)
    ensures bs == Initial()
  {
    if |bs| > 1 {
      assert bs[0].used || bs[1].used;
      BlockIsLive(start, bs, 1);
    }
    assert bs == [bs[0]];
    SpanOne(bs[0]);
  }

  lemma FreeOne(start: uint32, bs: seq<Block>, ptr: uint32, s: int, quiet: bool)
    requires Settled(start, bs) && HeadFree(bs) && IsLive(start, bs, ptr, s)
    ensures var n := Next(start, bs, Free(ptr), true, quiet);
            n.Some? && Settled(start, n.value) && HeadFree(n.value) && DropsLive(start, bs, n.value, ptr)
  {
    LiveRange(start, bs, ptr, s);
    var j := LiveIsBlock(start, bs, ptr, s);
    var i := LiveIndex(start, bs, ptr);
    LaterReleased(start, bs, i);
  }

  /** In the repaired form, freeing every live pointer in any order leaves the heap as `heap_init` made it. */
  lemma {:induction false} FreeAll(start: uint32, bs: seq<Block>, ptrs: seq<uint32>, quiet: bool)
    requires Settled(start, bs) && HeadFree(bs) && ListsLive(start, bs, ptrs)
    ensures Run(start, bs, Frees(ptrs), true, quiet) == Some(Initial())
    decreases |ptrs|
  {
    if ptrs == [] {
      forall p, s
        ensures !IsLive(start, bs, p, s)
      {
        if IsLive(start, bs, p, s) {
          LiveRange(start, bs, p, s);
          assert LivePtr(start, bs, p);
        }
      }
      NoneLive(start, bs);
    } else {
      var p := ptrs[0];
      assert LivePtr(start, bs, p);
      var s :| IsLive(start, bs, p, s);
      FreeOne(start, bs, p, s, quiet);
      var bs' := Next(start, bs, Free(p), true, quiet).value;
      ListsRest(start, bs, bs', ptrs);
      FreeAll(start, bs', ptrs[1..], quiet);
      assert Frees(ptrs)[0] == Free(p) && Frees(ptrs)[1..] == Frees(ptrs[1..]);
    }
  }

  lemma ListsRest(start: int, bs: seq<Block>, bs': seq<Block>, ptrs: seq<uint32>)
    requires ptrs != [] && ListsLive(start, bs, ptrs) && DropsLive(start, bs, bs', ptrs[0])
    ensures ListsLive(start, bs', ptrs[1..])
  {
    var rest := ptrs[1..];
    forall p: uint32
      ensures p in rest <==> LivePtr(start, bs', p)
    {
      if p in rest {
        assert p in ptrs && p != ptrs[0];
        var s :| IsLive(start, bs, p, s);
        assert IsLive(start, bs', p, s);
      }
      if LivePtr(start, bs', p) {
        var s :| IsLive(start, bs', p, s);
        assert IsLive(start, bs, p, s);
        assert LivePtr(start, bs, p);
        assert p in ptrs && p != ptrs[0];
      }
    }
  }
}
