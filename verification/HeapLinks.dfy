/** The back links of free blocks, kernel/kheap.c: which calls keep them right, and exact fits sound with them. */
module HeapLinks {
  import opened Words
  import opened HeapBlocks
  import opened HeapMemory
  import opened HeapOps
  import opened HeapRelease
  import opened HeapRuns

  // ------------------------------------------------------------------
  // The blocks after each change, one by one
  // ------------------------------------------------------------------

  predicate NoneFree(bs: seq<Block>, from: int, to: int) {
    forall j :: 0 <= from <= j < to <= |bs| ==> bs[j].used
  }

  /** A split takes the request off the end of the block, and touches no other. */
  lemma SplitIs(start: int, bs: seq<Block>, k: nat, request: uint32, j: nat)
    requires k < |bs| && request as int + OVERHEAD <= bs[k].size && 0 <= Addr(start, bs, k) < TWO32 && j < |bs| + 1
    ensures var r := Split(start, bs, k, request);
            && |r| == |bs| + 1
            && r[j] == if j < k then bs[j]
               else if j == k then Block(bs[k].size - request - OVERHEAD, bs[k].used, bs[k].prev)
               else if j == k + 1 then Block(request, true, Addr(start, bs, k)) else bs[j - 1]
  {
  }

  lemma {:induction false} SetPrevIs(bs: seq<Block>, p: uint32, j: nat)
    requires j < |bs|
    ensures SetPrev(bs, p)[j] == if !bs[j].used && NoneFree(bs, 0, j) then bs[j].(prev := p) else bs[j]
    decreases bs
  {
    if bs[0].used && j > 0 {
      SetPrevIs(bs[1..], p, j - 1);
      assert forall i :: 0 < i < |bs| ==> bs[i] == bs[1..][i - 1];
      assert NoneFree(bs, 0, j) <==> NoneFree(bs[1..], 0, j - 1);
    }
  }

  /** An exact fit hands out the block, and gives its back link to the next free one; it touches no other. */
  lemma TakenIs(bs: seq<Block>, k: nat, j: nat)
    requires k < |bs| && j < |bs|
    ensures var r := TakeWhole(bs, k);
            && |r| == |bs|
            && r[j] == if j == k then bs[k].(used := true)
               else if j > k && !bs[j].used && NoneFree(bs, k + 1, j) then bs[j].(prev := bs[k].prev) else bs[j]
  {
    if j > k {
      var rest := bs[k + 1..];
      SetPrevIs(rest, bs[k].prev, j - k - 1);
      assert forall i :: k < i < |bs| ==> bs[i] == rest[i - k - 1];
      assert NoneFree(bs, k + 1, j) <==> NoneFree(rest, 0, j - k - 1);
    }
  }

  /** Where the block that takes in a released one is, and how many blocks it takes in with it. */
  function Into(bs: seq<Block>, i: nat): nat
    requires i < |bs|
  {
    if LeftFree(bs, i) then i - 1 else i
  }

  function Absorbed(bs: seq<Block>, i: nat): nat
    requires i < |bs|
  {
    (if LeftFree(bs, i) then 1 else 0) + if RightFree(bs, i) then 1 else 0
  }

  /** The size of a block that takes in its free neighbours. */
  function Together(bs: seq<Block>, i: nat): int
    requires i < |bs|
  {
    bs[i].size as int + (if LeftFree(bs, i) then bs[i - 1].size as int + OVERHEAD else 0) +
    if RightFree(bs, i) then bs[i + 1].size as int + OVERHEAD else 0
  }

  /**
   * A release makes one free block of the released one and its free neighbours. It has the back link of the left one if
   * that is free, otherwise the last member of the free list before it; the first block gets itself. No other block is
   * touched.
   */
  lemma ReleasedIs(start: uint32, bs: seq<Block>, i: nat, j: nat)
    requires Tiled(start, bs) && i < |bs| && (i == 0 ==> RightFree(bs, 0)) && j < |bs| - Absorbed(bs, i)
    ensures i > 0 ==> 0 <= LastLink(start, bs[..i]) < TWO32
    ensures var r, a := Released(start, bs, i), Into(bs, i);
            && |r| == |bs| - Absorbed(bs, i)
            && if j < a then r[j] == bs[j]
               else if j > a then r[j] == bs[j + Absorbed(bs, i)]
               else
                 && !r[j].used && r[j].size == Together(bs, i)
                 && r[j].prev == if i == 0 then start
                    else if LeftFree(bs, i) then bs[i - 1].prev else LastLink(start, bs[..i])
  {
    if i > 0 {
      FirstLinkRange(start, bs, i);
      FreedSpan(start, bs, i);
      MergedIs(Freed(start, bs, i), i, j);
    }
  }

  lemma MergeIs(f: seq<Block>, i: nat, r: seq<Block>, j: nat)
    requires i + 1 < |f| && f[i].size as int + OVERHEAD + f[i + 1].size < TWO32 && r == Merge(f, i) && j + 1 < |f|
    ensures |r| + 1 == |f|
    ensures r[j] == if j < i then f[j] else if j > i then f[j + 1] else
                    f[i].(size := f[i].size + OVERHEAD + f[i + 1].size)
  {
  }

  lemma MergedIs(f: seq<Block>, i: nat, j: nat)
    requires i < |f| && Span(f) < TWO32 && j < |f| - Absorbed(f, i)
    ensures var r, a := Coalesced(f, i), Into(f, i);
            && |r| == |f| - Absorbed(f, i)
            && if j < a then r[j] == f[j]
               else if j > a then r[j] == f[j + Absorbed(f, i)]
               else r[j].used == f[a].used && r[j].size == Together(f, i) && r[j].prev == f[a].prev
  {
    if RightFree(f, i) {
      PairFits(f, i);
      MergeSpan(f, i);
      var g := Merge(f, i);
      MergeIs(f, i, g, i);
      if LeftFree(f, i) {
        MergeIs(f, i, g, i - 1);
      }
      LeftMergedIs(f, g, i, j);
    } else {
      MergedLeftIs(f, i, j);
    }
  }

  lemma MergedLeftIs(f: seq<Block>, i: nat, j: nat)
    requires i < |f| && Span(f) < TWO32 && j < |f| - if LeftFree(f, i) then 1 else 0
    ensures var r, a := MergeLeft(f, i), Into(f, i);
            && |r| == |f| - (if LeftFree(f, i) then 1 else 0)
            && if j < a then r[j] == f[j]
               else if j > a then r[j] == f[j + if LeftFree(f, i) then 1 else 0]
               else
                 && r[j].used == f[a].used && r[j].prev == f[a].prev
                 && r[j].size == f[i].size as int + if LeftFree(f, i) then f[i - 1].size as int + OVERHEAD else 0
  {
    if LeftFree(f, i) {
      PairFits(f, i - 1);
      MergeIs(f, i - 1, Merge(f, i - 1), j);
    }
  }

  lemma LeftMergedIs(f: seq<Block>, g: seq<Block>, i: nat, j: nat)
    requires RightFree(f, i) && Span(f) < TWO32 && f[i].size as int + OVERHEAD + f[i + 1].size < TWO32
    requires g == Merge(f, i) && |g| + 1 == |f| && Span(g) < TWO32 && j < |f| - Absorbed(f, i)
    requires g[i] == f[i].(size := f[i].size + OVERHEAD + f[i + 1].size)
    requires LeftFree(f, i) ==> g[i - 1] == f[i - 1]
    ensures var r, a := MergeLeft(g, i), Into(f, i);
            && |r| == |f| - Absorbed(f, i)
            && if j < a then r[j] == f[j]
               else if j > a then r[j] == f[j + Absorbed(f, i)]
               else r[j].used == f[a].used && r[j].size == Together(f, i) && r[j].prev == f[a].prev
  {
    hide Merge, MergeLeft, Span;
    if i > 0 {
      MergeIs(f, i, g, i - 1);
    }
    MergedLeftIs(g, i, j);
    MergeIs(f, i, g, j);
    if LeftFree(f, i) && j > i - 1 {
      MergeIs(f, i, g, j + 1);
    }
  }

  // ------------------------------------------------------------------
  // Right links
  // ------------------------------------------------------------------

  /** Every free block but the first one has the last member of the free list before it as its back link. */
  ghost predicate LinksRight(start: int, bs: seq<Block>) {
    forall k: nat :: 0 < k < |bs| && !bs[k].used ==> bs[k].prev == LastLink(start, bs[..k])
  }

  /** Block `j` is that last member before position `k`. */
  predicate LastBefore(bs: seq<Block>, k: nat, j: nat) {
    j < k <= |bs| && (j == 0 || !bs[j].used) && NoneFree(bs, j + 1, k)
  }

  lemma {:induction false} FindLast(bs: seq<Block>, k: nat) returns (j: nat)
    requires 0 < k <= |bs|
    ensures LastBefore(bs, k, j)
  {
    j := k - 1;
    if j > 0 && bs[j].used {
      j := FindLast(bs, k - 1);
    }
  }

  lemma {:induction false} LastLinkIs(start: int, bs: seq<Block>, k: nat, j: nat)
    requires LastBefore(bs, k, j)
    ensures LastLink(start, bs[..k]) == Addr(start, bs, j)
    decreases k
  {
    assert bs[..k][..k - 1] == bs[..k - 1] && bs[..k][k - 1] == bs[k - 1];
    if j < k - 1 {
      assert bs[k - 1].used;
      LastLinkIs(start, bs, k - 1, j);
    }
  }

  /** A free block's link is right when it is the address of the last member before it. */
  lemma RightWhere(start: int, bs: seq<Block>, k: nat, j: nat)
    requires LastBefore(bs, k, j) && k < |bs|
    ensures bs[k].prev == LastLink(start, bs[..k]) <==> bs[k].prev == Addr(start, bs, j)
  {
    LastLinkIs(start, bs, k, j);
  }

  /** The fresh heap's links are right. */
  lemma InitLinks(start: int)
    ensures LinksRight(start, Initial())
  {
  }

  /** With right links every exact fit is sound. */
  lemma RightLinksServe(start: int, bs: seq<Block>, k: nat)
    requires LinksRight(start, bs) && k < |bs| && !bs[k].used
    ensures AllocSound(start, bs, k, bs[k].size)
  {
  }

  lemma SplitAddr(start: int, bs: seq<Block>, k: nat, request: uint32, j: nat)
    requires k < |bs| && request as int + OVERHEAD <= bs[k].size && 0 <= Addr(start, bs, k) < TWO32 && j <= |bs|
    ensures j <= k ==> Addr(start, Split(start, bs, k, request), j) == Addr(start, bs, j)
    ensures j > k ==> Addr(start, Split(start, bs, k, request), j + 1) == Addr(start, bs, j)
  {
    var r := Split(start, bs, k, request);
    if j <= k {
      assert r[..j] == bs[..j];
    } else {
      var b1, b2 := r[k], r[k + 1];
      assert bs[..j] == bs[..k] + ([bs[k]] + bs[k + 1..j]) && r[..j + 1] == bs[..k] + ([b1] + ([b2] + bs[k + 1..j]));
      SpanConcat(bs[..k], [bs[k]] + bs[k + 1..j]);
      SpanConcat(bs[..k], [b1] + ([b2] + bs[k + 1..j]));
      SpanCons(bs[k], bs[k + 1..j]);
      SpanCons(b1, [b2] + bs[k + 1..j]);
      SpanCons(b2, bs[k + 1..j]);
    }
  }

  /** A split keeps the links right. */
  lemma SplitKeepsLinks(start: int, bs: seq<Block>, k: nat, request: uint32)
    requires k < |bs| && !bs[k].used && request as int + OVERHEAD <= bs[k].size && 0 <= Addr(start, bs, k) < TWO32
    requires LinksRight(start, bs)
    ensures LinksRight(start, Split(start, bs, k, request))
  {
    var r := Split(start, bs, k, request);
    forall j: nat | 0 < j < |r| && !r[j].used
      ensures r[j].prev == LastLink(start, r[..j])
    {
      if j <= k {
        assert r[..j] == bs[..j];
      } else {
        var p := FindLast(bs, j - 1);
        assert p >= k;
        RightWhere(start, bs, j - 1, p);
        var q := if p == k then k else p + 1;
        assert NoneFree(r, q + 1, j);
        RightWhere(start, r, j, q);
        SplitAddr(start, bs, k, request, p);
      }
    }
  }

  lemma {:induction false} SameAddr(start: int, bs: seq<Block>, r: seq<Block>, j: nat)
    requires |r| == |bs| && j <= |bs| && forall i :: 0 <= i < |bs| ==> r[i].size == bs[i].size
    ensures Addr(start, r, j) == Addr(start, bs, j)
  {
    if j > 0 {
      SameAddr(start, bs, r, j - 1);
      AddrNext(start, bs, j - 1);
      AddrNext(start, r, j - 1);
    }
  }

  /** The next free block after an exact fit. */
  lemma NextLink(start: int, bs: seq<Block>, k: nat, j: nat)
    requires k < j < |bs| && !bs[k].used && !bs[j].used && LinksRight(start, bs)
    ensures var r := TakeWhole(bs, k);
            r[j].prev == LastLink(start, r[..j]) <==> !NoneFree(bs, k + 1, j) || k > 0 || bs[0].prev == start
  {
    var r := TakeWhole(bs, k);
    var p := FindLast(bs, j);
    RightWhere(start, bs, j, p);
    TakenIs(bs, k, j);
    forall i | 0 <= i < |bs|
      ensures r[i].size == bs[i].size && (r[i].used <==> i == k || bs[i].used)
    {
      TakenIs(bs, k, i);
    }
    assert p >= k;
    if p > k {
      assert LastBefore(r, j, p);
      RightWhere(start, r, j, p);
      SameAddr(start, bs, r, p);
      assert !NoneFree(bs, k + 1, j);
    } else {
      var q: nat := 0;
      if k > 0 {
        q := FindLast(bs, k);
      }
      assert LastBefore(r, j, q);
      RightWhere(start, r, j, q);
      SameAddr(start, bs, r, q);
      if k > 0 {
        RightWhere(start, bs, k, q);
      } else {
        assert bs[..0] == [];
      }
    }
  }

  /**
   * An exact fit keeps the links right, but for one of the first block: that leaves the next free block a right link
   * exactly when the first block had been released before, and so had itself as back link.
   */
  lemma TakeKeepsLinks(start: int, bs: seq<Block>, k: nat)
    requires k < |bs| && !bs[k].used && LinksRight(start, bs)
    ensures LinksRight(start, TakeWhole(bs, k)) <==> k > 0 || bs[0].prev == start || NoneFree(bs, 1, |bs|)
  {
    var r := TakeWhole(bs, k);
    forall j: nat | 0 < j < |r| && !r[j].used
      ensures r[j].prev == LastLink(start, r[..j]) <==> j < k || !NoneFree(bs, k + 1, j) || k > 0 || bs[0].prev == start
    {
      TakenIs(bs, k, j);
      if j < k {
        assert r[..j] == bs[..j];
      } else {
        NextLink(start, bs, k, j);
      }
    }
    if !NoneFree(bs, 1, |bs|) && k == 0 {
      var j := FirstFreeFrom(bs, 1);
      TakenIs(bs, k, j);
      assert !r[j].used && NoneFree(bs, 1, j);
    }
  }

  lemma {:induction false} FirstFreeFrom(bs: seq<Block>, from: nat) returns (j: nat)
    requires from < |bs| && !NoneFree(bs, from, |bs|)
    ensures from <= j < |bs| && !bs[j].used && NoneFree(bs, from, j)
    decreases |bs| - from
  {
    if !bs[from].used {
      j := from;
    } else {
      j := FirstFreeFrom(bs, from + 1);
    }
  }

  lemma AddrZero(start: int, bs: seq<Block>)
    ensures Addr(start, bs, 0) == start
  {
    assert bs[..0] == [];
  }

  lemma {:induction false} ReleasedAddr(start: uint32, bs: seq<Block>, i: nat, j: nat, r: seq<Block>)
    requires Tiled(start, bs) && i < |bs| && (i == 0 ==> RightFree(bs, 0)) && j < |bs| - Absorbed(bs, i)
    requires r == Released(start, bs, i) && |r| == |bs| - Absorbed(bs, i)
    ensures Addr(start, r, j) == Addr(start, bs, if j <= Into(bs, i) then j else j + Absorbed(bs, i))
    decreases j
  {
    hide Released, Addr, LastLink, Tiled;
    if j == 0 {
      AddrZero(start, r);
      AddrZero(start, bs);
    } else {
      var k: nat, a, d := j - 1, Into(bs, i), Absorbed(bs, i);
      ReleasedAddr(start, bs, i, k, r);
      ReleasedIs(start, bs, i, k);
      AddrNext(start, r, k);
      if k < a {
        AddrNext(start, bs, k);
      } else if k > a {
        AddrNext(start, bs, k + d);
      } else {
        AddrsTogether(start, bs, i, a, d);
      }
    }
  }

  lemma AddrsTogether(start: int, bs: seq<Block>, i: nat, a: nat, d: nat)
    requires i < |bs| && a == Into(bs, i) && d == Absorbed(bs, i) && a + d < |bs|
    ensures Addr(start, bs, a + 1 + d) == Addr(start, bs, a) + Together(bs, i) + OVERHEAD
  {
    hide Addr;
    AddrNext(start, bs, a);
    if d > 0 {
      AddrNext(start, bs, a + 1);
    }
    if d > 1 {
      AddrNext(start, bs, a + 2);
    }
  }

  /** The free block at position `j` of the result, behind the released one. */
  lemma LinkBehind(start: uint32, bs: seq<Block>, i: nat, j: nat, r: seq<Block>)
    requires Tiled(start, bs) && i < |bs| && bs[i].used && (i == 0 ==> RightFree(bs, 0)) && LinksRight(start, bs)
    requires r == Released(start, bs, i) && |r| == |bs| - Absorbed(bs, i) && Into(bs, i) < j < |r| && !r[j].used
    ensures r[j].prev == LastLink(start, r[..j]) <==>
            !NoneFree(r, Into(bs, i) + 1, j) || (LeftFree(bs, i) && !RightFree(bs, i))
  {
    hide Addr, LastLink, Released, Tiled;
    var a, d := Into(bs, i), Absorbed(bs, i);
    var p := FindLast(bs, j + d);
    var q := FindLast(r, j);
    forall k: nat | k < |r|
      ensures k < a ==> r[k] == bs[k]
      ensures k > a ==> r[k] == bs[k + d]
      ensures k == a ==> !r[k].used
    {
      ReleasedIs(start, bs, i, k);
    }
    RightWhere(start, bs, j + d, p);
    RightWhere(start, r, j, q);
    ReleasedAddr(start, bs, i, q, r);
    SamePlace(start, bs, i, j, r, p, q, a, d);
  }

  lemma OneLast(bs: seq<Block>, k: nat, p: nat, q: nat)
    requires LastBefore(bs, k, p) && LastBefore(bs, k, q)
    ensures p == q
  {
  }

  lemma LastShifted(bs: seq<Block>, r: seq<Block>, a: nat, d: nat, j: nat, q: nat)
    requires |bs| == |r| + d && j < |r| && a < q && LastBefore(r, j, q)
    requires forall k: nat :: a < k < |r| ==> r[k] == bs[k + d]
    ensures LastBefore(bs, j + d, q + d)
  {
    assert forall k :: q + d < k < j + d ==> bs[k] == r[k - d];
  }

  lemma LastJoined(start: int, bs: seq<Block>, i: nat, j: nat, p: nat, a: nat, d: nat)
    requires i < |bs| && bs[i].used && (i == 0 ==> RightFree(bs, 0)) && a == Into(bs, i) && d == Absorbed(bs, i)
    requires a < j && LastBefore(bs, j + d, p) && NoneFree(bs, a + d + 1, j + d)
    ensures Addr(start, bs, p) == Addr(start, bs, a) <==> LeftFree(bs, i) && !RightFree(bs, i)
  {
    hide Addr;
    if RightFree(bs, i) {
      assert p == i + 1;
      AddrOrder(start, bs, a, i + 1);
    } else if LeftFree(bs, i) {
      OneLast(bs, j + d, p, i - 1);
    } else {
      assert p < i;
      AddrOrder(start, bs, p, i);
    }
  }

  /** The last member before it, in the heap before and after. */
  lemma SamePlace(start: int, bs: seq<Block>, i: nat, j: nat, r: seq<Block>, p: nat, q: nat, a: nat, d: nat)
    requires i < |bs| && bs[i].used && (i == 0 ==> RightFree(bs, 0)) && a == Into(bs, i) && d == Absorbed(bs, i)
    requires |r| == |bs| - d && a < j < |r| && !r[a].used && forall k: nat :: a < k < |r| ==> r[k] == bs[k + d]
    requires LastBefore(bs, j + d, p) && LastBefore(r, j, q)
    ensures Addr(start, bs, p) == Addr(start, bs, if q <= a then q else q + d) <==>
            !NoneFree(r, a + 1, j) || (LeftFree(bs, i) && !RightFree(bs, i))
  {
    hide Addr;
    if q > a {
      LastShifted(bs, r, a, d, j, q);
      OneLast(bs, j + d, p, q + d);
      assert !r[q].used;
    } else {
      assert q == a && NoneFree(r, a + 1, j);
      assert forall k :: a + d < k < j + d ==> bs[k] == r[k - d];
      LastJoined(start, bs, i, j, p, a, d);
    }
  }

  /**
   * A release keeps the links right exactly when it only joins the free block before it, or no free block comes after.
   * In every other case the next free block is left with a link past the released one, or to one that is no more.
   */
  lemma ReleaseKeepsLinks(start: uint32, bs: seq<Block>, i: nat, r: seq<Block>)
    requires Tiled(start, bs) && i < |bs| && bs[i].used && (i == 0 ==> RightFree(bs, 0)) && LinksRight(start, bs)
    requires r == Released(start, bs, i)
    ensures LinksRight(start, r) <==>
            || (LeftFree(bs, i) && !RightFree(bs, i))
            || NoneFree(bs, if RightFree(bs, i) then i + 2 else i + 1, |bs|)
  {
    hide LastLink, Released, Tiled;
    var a, d := Into(bs, i), Absorbed(bs, i);
    ReleasedIs(start, bs, i, 0);
    forall j: nat | j < |r|
      ensures j < a ==> r[j] == bs[j]
      ensures j > a ==> r[j] == bs[j + d]
      ensures 0 < j <= a && !r[j].used ==> r[j].prev == LastLink(start, r[..j])
      ensures j > a && !r[j].used ==>
                (r[j].prev == LastLink(start, r[..j]) <==>
                !NoneFree(r, a + 1, j) || (LeftFree(bs, i) && !RightFree(bs, i)))
    {
      ReleasedIs(start, bs, i, j);
      if j > a && !r[j].used {
        LinkBehind(start, bs, i, j, r);
      } else if j <= a {
        LinkBefore(start, bs, i, j, r);
      }
    }
    if !NoneFree(r, a + 1, |r|) {
      var j := FirstFreeFrom(r, a + 1);
    }
    NoneFreeShifted(bs, r, a + 1, d);
  }

  lemma NoneFreeShifted(bs: seq<Block>, r: seq<Block>, from: nat, d: nat)
    requires |bs| == |r| + d && forall j: nat :: from <= j < |r| ==> r[j] == bs[j + d]
    ensures NoneFree(r, from, |r|) <==> NoneFree(bs, from + d, |bs|)
  {
    assert forall j :: from + d <= j < |bs| ==> bs[j] == r[j - d];
  }

  lemma LinkBefore(start: uint32, bs: seq<Block>, i: nat, j: nat, r: seq<Block>)
    requires Tiled(start, bs) && i < |bs| && (i == 0 ==> RightFree(bs, 0)) && LinksRight(start, bs)
    requires r == Released(start, bs, i) && j < |r| && j <= Into(bs, i) && |r| == |bs| - Absorbed(bs, i)
    ensures 0 < j && !r[j].used ==> r[j].prev == LastLink(start, r[..j])
  {
    forall k: nat | k < j
      ensures r[k] == bs[k]
    {
      ReleasedIs(start, bs, i, k);
    }
    ReleasedIs(start, bs, i, j);
    assert r[..j] == bs[..j];
  }
}
