/**
 * The kernel heap as a sequence of blocks, kernel/kheap.c, and what an allocation and a release do to it: the best fit,
 * a split, handing out a whole block, marking a block free and coalescing it, with no memory in sight.
 */
module HeapBlocks {
  import opened Words

  const HEADER := 16
  const TRAILER := 8
  const OVERHEAD := 24
  const HEAP_MAX_SIZE := 65536 * 16

  /** Payload size in bytes, whether the block is handed out, and the back link its header holds. */
  datatype Block = Block(size: uint32, used: bool, prev: uint32)

  /** Bytes a run of blocks takes up, headers and trailers included. */
  function Span(bs: seq<Block>): nat {
    if bs == [] then 0 else bs[0].size + OVERHEAD + Span(bs[1..])
  }

  lemma {:induction false} SpanConcat(a: seq<Block>, b: seq<Block>)
    ensures Span(a + b) == Span(a) + Span(b)
  {
    if a == [] {
      assert a + b == b;
    } else {
      SpanConcat(a[1..], b);
      assert (a + b)[1..] == a[1..] + b;
    }
  }

  function Addr(start: int, bs: seq<Block>, i: nat): int
    requires i <= |bs|
  {
    start + Span(bs[..i])
  }

  lemma AddrNext(start: int, bs: seq<Block>, i: nat)
    requires i < |bs|
    ensures Addr(start, bs, i + 1) == Addr(start, bs, i) + bs[i].size + OVERHEAD
  {
    SpanConcat(bs[..i], [bs[i]]);
    assert bs[..i + 1] == bs[..i] + [bs[i]];
    assert Span([bs[i]]) == bs[i].size + OVERHEAD;
  }

  lemma {:induction false} AddrOrder(start: int, bs: seq<Block>, i: nat, j: nat)
    requires i < j <= |bs|
    ensures Addr(start, bs, i) + bs[i].size + OVERHEAD <= Addr(start, bs, j)
  {
    AddrNext(start, bs, j - 1);
    if i < j - 1 {
      AddrOrder(start, bs, i, j - 1);
    }
  }

  // ------------------------------------------------------------------
  // Best fit
  // ------------------------------------------------------------------

  predicate Fits(b: Block, request: uint32) {
    !b.used && b.size >= request
  }

  /** The smallest free block that is large enough, the first of those at the lowest address; -1 when there is none. */
  function Best(bs: seq<Block>, request: uint32): (r: int)
    ensures -1 <= r < |bs|
    ensures r < 0 ==> forall j :: 0 <= j < |bs| ==> !Fits(bs[j], request)
    ensures r >= 0 ==>
              && Fits(bs[r], request)
              && (forall j :: 0 <= j < |bs| && Fits(bs[j], request) ==> bs[r].size <= bs[j].size)
              && (forall j :: 0 <= j < r && Fits(bs[j], request) ==> bs[r].size < bs[j].size)
  {
    if bs == [] then -1
    else
      var n := |bs| - 1;
      var r := Best(bs[..n], request);
      if Fits(bs[n], request) && (r < 0 || bs[n].size < bs[r].size) then n else r
  }

  // ------------------------------------------------------------------
  // Allocation
  // ------------------------------------------------------------------

  /** Carve the request off the end of block `k`. */
  function Split(start: int, bs: seq<Block>, k: nat, request: uint32): seq<Block>
    requires k < |bs| && request as int + OVERHEAD <= bs[k].size && 0 <= Addr(start, bs, k) < TWO32
  {
    bs[..k] + [bs[k].(size := bs[k].size - request - OVERHEAD), Block(request, true, Addr(start, bs, k))] + bs[k + 1..]
  }

  /** The first free block gets `p` as its back link. */
  function SetPrev(bs: seq<Block>, p: uint32): (r: seq<Block>)
    ensures |r| == |bs| && Span(r) == Span(bs)
    ensures forall i :: 0 <= i < |bs| ==> r[i].size == bs[i].size && r[i].used == bs[i].used
  {
    if bs == [] then []
    else if !bs[0].used then [bs[0].(prev := p)] + bs[1..]
    else [bs[0]] + SetPrev(bs[1..], p)
  }

  /** Hand out the whole of block `k`, and give its successor in the free list its back link. */
  function TakeWhole(bs: seq<Block>, k: nat): seq<Block>
    requires k < |bs|
  {
    bs[..k] + [bs[k].(used := true)] + SetPrev(bs[k + 1..], bs[k].prev)
  }

  // ------------------------------------------------------------------
  // Release
  // ------------------------------------------------------------------

  /**
   * Address of the last member of the free list in a nonempty prefix of the heap: its last free block, or the heap
   * start.
   */
  function LastLink(start: int, bs: seq<Block>): int
    requires bs != []
  {
    var n := |bs| - 1;
    if n == 0 || !bs[n].used then Addr(start, bs, n) else LastLink(start, bs[..n])
  }

  /** Block `i` marked free and linked behind the free list's members before it. */
  function Freed(start: int, bs: seq<Block>, i: nat): seq<Block>
    requires 0 < i < |bs| && 0 <= LastLink(start, bs[..i]) < TWO32
  {
    bs[..i] + [Block(bs[i].size, false, LastLink(start, bs[..i]))] + bs[i + 1..]
  }

  predicate RightFree(bs: seq<Block>, i: nat) {
    i + 1 < |bs| && !bs[i + 1].used
  }

  predicate LeftFree(bs: seq<Block>, i: nat)
    requires i < |bs|
  {
    0 < i && !bs[i - 1].used
  }

  /** Block `i` absorbs the one after it. */
  function Merge(bs: seq<Block>, i: nat): seq<Block>
    requires i + 1 < |bs| && bs[i].size as int + OVERHEAD + bs[i + 1].size < TWO32
  {
    bs[..i] + [bs[i].(size := bs[i].size + OVERHEAD + bs[i + 1].size)] + bs[i + 2..]
  }

  function MergeLeft(bs: seq<Block>, i: nat): seq<Block>
    requires i < |bs| && Span(bs) < TWO32
  {
    if LeftFree(bs, i) then PairFits(bs, i - 1); Merge(bs, i - 1) else bs
  }

  lemma SpanCons(b: Block, bs: seq<Block>)
    ensures Span([b] + bs) == b.size as int + OVERHEAD + Span(bs)
  {
    assert ([b] + bs)[1..] == bs;
  }

  lemma PairFits(bs: seq<Block>, i: nat)
    requires i + 1 < |bs|
    ensures bs[i].size as int + OVERHEAD + bs[i + 1].size + OVERHEAD <= Span(bs)
  {
    assert bs == bs[..i] + ([bs[i]] + ([bs[i + 1]] + bs[i + 2..]));
    SpanConcat(bs[..i], [bs[i]] + ([bs[i + 1]] + bs[i + 2..]));
    SpanCons(bs[i], [bs[i + 1]] + bs[i + 2..]);
    SpanCons(bs[i + 1], bs[i + 2..]);
  }

  lemma MergeSpan(bs: seq<Block>, i: nat)
    requires i + 1 < |bs| && bs[i].size as int + OVERHEAD + bs[i + 1].size < TWO32
    ensures Span(Merge(bs, i)) == Span(bs)
  {
    var b := bs[i].(size := bs[i].size + OVERHEAD + bs[i + 1].size);
    assert bs == bs[..i] + ([bs[i]] + ([bs[i + 1]] + bs[i + 2..]));
    assert Merge(bs, i) == bs[..i] + ([b] + bs[i + 2..]);
    SpanConcat(bs[..i], [bs[i]] + ([bs[i + 1]] + bs[i + 2..]));
    SpanCons(bs[i], [bs[i + 1]] + bs[i + 2..]);
    SpanCons(bs[i + 1], bs[i + 2..]);
    SpanConcat(bs[..i], [b] + bs[i + 2..]);
    SpanCons(b, bs[i + 2..]);
  }

  /** Coalesce block `i` with its free neighbours, the right one first. */
  function Coalesced(bs: seq<Block>, i: nat): seq<Block>
    requires i < |bs| && Span(bs) < TWO32
  {
    if RightFree(bs, i) then
      PairFits(bs, i);
      MergeSpan(bs, i);
      MergeLeft(Merge(bs, i), i)
    else
      MergeLeft(bs, i)
  }
}
