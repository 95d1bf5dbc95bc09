/**
 * How a sequence of blocks is laid out in memory: boundary tags, and the free list threaded through the headers. A
 * layout is taken apart and put together in segments, each of which says where the free list goes on behind it.
 */
module HeapMemory {
  import opened Words
  import opened HeapBlocks

  /** Word-addressed memory: the 32-bit word at each 4-byte aligned address, zero where nothing was written. */
  type Memory = map<int, uint32>

  function Load(m: Memory, a: int): uint32 {
    if a in m then m[a] else 0
  }

  /** Offsets of the fields of a block header. */
  const SIZE := 0
  const USED := 4
  const PREV := 8
  const NEXT := 12

  function Flag(used: bool): uint32 {
    if used then 1 else 0
  }

  /** Header and trailer of block `b` at address `a` agree with it and with each other. */
  ghost predicate BlockAt(m: Memory, a: int, b: Block) {
    && 0 < b.size && b.size % 4 == 0
    && Load(m, a) == b.size
    && Load(m, a + USED) == Flag(b.used)
    && Load(m, a + PREV) == b.prev
    && Load(m, a + HEADER + b.size) == b.size
    && Load(m, a + HEADER + b.size + 4) == Flag(b.used)
  }

  /** Address of the first free block among those laid out from `a`, or `nxt` when there is none. */
  function FirstFree(a: int, bs: seq<Block>, nxt: int): int
    decreases bs
  {
    if bs == [] then nxt
    else if !bs[0].used then a
    else FirstFree(a + bs[0].size + OVERHEAD, bs[1..], nxt)
  }

  /**
   * The blocks `bs` are laid out from address `a`, and each member of the free list among them points to the
   * next one, the last to `nxt`. The members are the free blocks, and the first block when it is the `head`.
   */
  ghost predicate Seg(m: Memory, a: int, bs: seq<Block>, nxt: int, head: bool)
    decreases bs
  {
    bs == [] || (
      var rest := a + bs[0].size + OVERHEAD;
      && BlockAt(m, a, bs[0])
      && (head || !bs[0].used ==> Load(m, a + NEXT) == FirstFree(rest, bs[1..], nxt))
      && Seg(m, rest, bs[1..], nxt, false))
  }

  /** Where a heap may lie: aligned, above its own length, and with room for one more header and trailer after it. */
  predicate Place(start: int) {
    HEAP_MAX_SIZE < start && start % 4 == 0 && start + HEAP_MAX_SIZE + OVERHEAD + OVERHEAD <= TWO32
  }

  /** The back link of the first block: none, or itself once it has been released. */
  predicate HeadLink(start: int, prev: uint32) {
    prev == 0 || prev == start
  }

  /**
   * The heap: blocks tile it exactly, the free list starts at its first block, and a zero-size header guards its end.
   */
  ghost predicate Heap(m: Memory, start: int, bs: seq<Block>) {
    && bs != []
    && Place(start)
    && Span(bs) == HEAP_MAX_SIZE + OVERHEAD
    && Seg(m, start, bs, 0, true)
    && HeadLink(start, bs[0].prev)
    && Load(m, start + HEAP_MAX_SIZE + OVERHEAD) == 0
  }

  // ------------------------------------------------------------------
  // Taking a layout apart and putting it together
  // ------------------------------------------------------------------

  lemma {:induction false} FirstFreeConcat(a: int, b: seq<Block>, c: seq<Block>, nxt: int)
    ensures FirstFree(a, b + c, nxt) == FirstFree(a, b, FirstFree(a + Span(b), c, nxt))
    decreases b
  {
    if b == [] {
      assert b + c == c;
    } else {
      FirstFreeConcat(a + b[0].size + OVERHEAD, b[1..], c, nxt);
      assert (b + c)[1..] == b[1..] + c;
    }
  }

  lemma {:induction false} SegConcat(m: Memory, a: int, b: seq<Block>, c: seq<Block>, nxt: int, head: bool)
    ensures Seg(m, a, b + c, nxt, head) <==>
            && Seg(m, a, b, FirstFree(a + Span(b), c, nxt), head)
            && Seg(m, a + Span(b), c, nxt, head && b == [])
    decreases b
  {
    if b == [] {
      assert b + c == c;
    } else {
      var rest := a + b[0].size + OVERHEAD;
      SegConcat(m, rest, b[1..], c, nxt, false);
      FirstFreeConcat(rest, b[1..], c, nxt);
      assert (b + c)[1..] == b[1..] + c;
    }
  }

  ghost predicate Same(m: Memory, m': Memory, from: int, to: int) {
    forall x {:trigger Load(m', x)} :: from <= x < to ==> Load(m', x) == Load(m, x)
  }

  lemma {:induction false} SegFrame(m: Memory, m': Memory, a: int, bs: seq<Block>, nxt: int, head: bool)
    requires Seg(m, a, bs, nxt, head) && Same(m, m', a, a + Span(bs))
    ensures Seg(m', a, bs, nxt, head)
    decreases bs
  {
    if bs != [] {
      var rest := a + bs[0].size + OVERHEAD;
      assert Span(bs) == bs[0].size + OVERHEAD + Span(bs[1..]);
      SegFrame(m, m', rest, bs[1..], nxt, false);
    }
  }

  /** A layout in three parts, taken apart ... */
  lemma SegParts(m: Memory, a: int, l: seq<Block>, mid: seq<Block>, r: seq<Block>, head: bool)
    requires Seg(m, a, l + mid + r, 0, head)
    ensures var b := a + Span(l); var n := FirstFree(b + Span(mid), r, 0);
            && Seg(m, a, l, FirstFree(b, mid, n), head)
            && Seg(m, b, mid, n, head && l == [])
            && Seg(m, b + Span(mid), r, 0, head && l == [] && mid == [])
  {
    var b := a + Span(l);
    assert l + mid + r == l + (mid + r);
    SegConcat(m, a, l, mid + r, 0, head);
    SegConcat(m, b, mid, r, 0, head && l == []);
    FirstFreeConcat(b, mid, r, 0);
  }

  /** ... and put together. */
  lemma SegJoin(m: Memory, a: int, l: seq<Block>, mid: seq<Block>, r: seq<Block>, f: int, n: int, head: bool)
    requires var b := a + Span(l);
             && n == FirstFree(b + Span(mid), r, 0)
             && f == FirstFree(b, mid, n)
             && Seg(m, a, l, f, head)
             && Seg(m, b, mid, n, head && l == [])
             && Seg(m, b + Span(mid), r, 0, head && l == [] && mid == [])
    ensures Seg(m, a, l + mid + r, 0, head)
  {
    var b := a + Span(l);
    assert l + mid + r == l + (mid + r);
    assert Seg(m, b, mid + r, 0, head && l == []) by {
      SegConcat(m, b, mid, r, 0, head && l == []);
    }
    assert FirstFree(b, mid + r, 0) == f by {
      FirstFreeConcat(b, mid, r, 0);
    }
    SegConcat(m, a, l, mid + r, 0, head);
  }

  /** What a layout says about its i-th block. */
  lemma SegAt(m: Memory, a: int, bs: seq<Block>, i: nat, head: bool)
    requires Seg(m, a, bs, 0, head) && i < |bs|
    ensures var b := Addr(a, bs, i);
            && BlockAt(m, b, bs[i])
            && ((head && i == 0) || !bs[i].used ==>
               Load(m, b + NEXT) == FirstFree(b + bs[i].size + OVERHEAD, bs[i + 1..], 0))
  {
    assert bs == bs[..i] + bs[i..];
    SegConcat(m, a, bs[..i], bs[i..], 0, head);
    assert bs[i..][1..] == bs[i + 1..];
  }

  lemma {:induction false} AlignedAddr(m: Memory, start: int, bs: seq<Block>, i: nat)
    requires Heap(m, start, bs) && i <= |bs|
    ensures Addr(start, bs, i) % 4 == 0
  {
    if i > 0 {
      AlignedAddr(m, start, bs, i - 1);
      SegAt(m, start, bs, i - 1, true);
      AddrNext(start, bs, i - 1);
    } else {
      assert bs[..0] == [];
    }
  }

  // ------------------------------------------------------------------
  // The last member of the free list
  // ------------------------------------------------------------------

  lemma {:induction false} LastLinkRange(a: int, bs: seq<Block>)
    requires bs != []
    ensures a <= LastLink(a, bs) && LastLink(a, bs) + OVERHEAD <= a + Span(bs)
  {
    var n := |bs| - 1;
    AddrNext(a, bs, n);
    assert bs[..n + 1] == bs;
    if n != 0 && bs[n].used {
      LastLinkRange(a, bs[..n]);
    }
  }

  /** A single block is a layout when its tags are right and it points on if it is in the list. */
  lemma SegOne(m: Memory, a: int, b: Block, nxt: int, head: bool)
    ensures Seg(m, a, [b], nxt, head) <==> BlockAt(m, a, b) && (head || !b.used ==> Load(m, a + NEXT) == nxt)
    ensures Span([b]) == b.size + OVERHEAD
    ensures FirstFree(a, [b], nxt) == if b.used then nxt else a
  {
    assert [b][1..] == [];
  }

  lemma SegPush(m: Memory, a: int, b: Block, bs: seq<Block>, nxt: int, head: bool)
    requires BlockAt(m, a, b)
    requires head || !b.used ==> Load(m, a + NEXT) == FirstFree(a + b.size + OVERHEAD, bs, nxt)
    requires Seg(m, a + b.size + OVERHEAD, bs, nxt, false)
    ensures Seg(m, a, [b] + bs, nxt, head)
  {
    assert ([b] + bs)[1..] == bs;
  }

  lemma SegAppend(m: Memory, a: int, l: seq<Block>, b: Block, f: int, nxt: int, head: bool)
    requires Seg(m, a, l, f, head) && f == FirstFree(a + Span(l), [b], nxt)
    requires BlockAt(m, a + Span(l), b)
    requires (head && l == []) || !b.used ==> Load(m, a + Span(l) + NEXT) == nxt
    ensures Seg(m, a, l + [b], nxt, head)
  {
    SegOne(m, a + Span(l), b, nxt, head && l == []);
    SegConcat(m, a, l, [b], nxt, head);
  }

  lemma SegLast(m: Memory, a: int, l: seq<Block>, b: Block, nxt: int, head: bool)
    requires Seg(m, a, l + [b], nxt, head)
    ensures Seg(m, a, l, FirstFree(a + Span(l), [b], nxt), head)
    ensures BlockAt(m, a + Span(l), b)
    ensures (head && l == []) || !b.used ==> Load(m, a + Span(l) + NEXT) == nxt
  {
    SegOne(m, a + Span(l), b, nxt, head && l == []);
    SegConcat(m, a, l, [b], nxt, head);
  }

  lemma BlockFrame(m: Memory, m': Memory, a: int, b: Block)
    requires BlockAt(m, a, b) && Same(m, m', a, a + NEXT) && Same(m, m', a + HEADER + b.size, a + OVERHEAD + b.size)
    ensures BlockAt(m', a, b)
  {
    assert Load(m', a) == Load(m, a);
    assert Load(m', a + USED) == Load(m, a + USED);
    assert Load(m', a + PREV) == Load(m, a + PREV);
    assert Load(m', a + HEADER + b.size) == Load(m, a + HEADER + b.size);
    assert Load(m', a + HEADER + b.size + 4) == Load(m, a + HEADER + b.size + 4);
  }

  /** The last block of the layout is a member of the list: only its own pointer changes. */
  lemma RelinkLast(m: Memory, m': Memory, a: int, l: seq<Block>, z: Block, nxt: int, to: uint32)
    requires Seg(m, a, l, FirstFree(a + Span(l), [z], nxt), true) && BlockAt(m, a + Span(l), z)
    requires l == [] || !z.used
    requires m' == m[a + Span(l) + NEXT := to]
    ensures Seg(m', a, l + [z], to, true)
  {
    var b := a + Span(l);
    BlockFrame(m, m', b, z);
    SegOne(m, b, z, nxt, false);
    SegOne(m, b, z, to, false);
    if l == [] {
      assert l + [z] == [z];
      SegOne(m', b, z, to, true);
    } else {
      SegFrame(m, m', a, l, b, true);
      SegAppend(m', a, l, z, b, to, true);
    }
  }

  /** Redirecting the last member's pointer redirects the whole list's end, and nothing else. */
  lemma {:induction false} Relink(m: Memory, m': Memory, a: int, bs: seq<Block>, nxt: int, to: uint32)
    requires Seg(m, a, bs, nxt, true) && bs != []
    requires m' == m[LastLink(a, bs) + NEXT := to]
    ensures Seg(m', a, bs, to, true)
    decreases |bs|
  {
    var n := |bs| - 1;
    var l, z := bs[..n], bs[n];
    assert bs == l + [z];
    SegLast(m, a, l, z, nxt, true);
    if n == 0 || !z.used {
      RelinkLast(m, m', a, l, z, nxt, to);
    } else {
      SegOne(m, a + Span(l), z, nxt, false);
      SegOne(m, a + Span(l), z, to, false);
      LastLinkRange(a, l);
      Relink(m, m', a, l, nxt, to);
      BlockFrame(m, m', a + Span(l), z);
      SegAppend(m', a, l, z, to, to, true);
    }
  }

  lemma {:induction false} FirstFreeRange(a: int, bs: seq<Block>)
    requires 0 < a
    ensures FirstFree(a, bs, 0) == 0 || a <= FirstFree(a, bs, 0) < a + Span(bs)
    decreases bs
  {
    if bs != [] {
      FirstFreeRange(a + bs[0].size + OVERHEAD, bs[1..]);
    }
  }

  /** Memory after the back link of the free block at `f`, if there is one, has been written. */
  function PutPrev(m: Memory, f: int, p: uint32): Memory {
    if f != 0 then m[f + PREV := p] else m
  }

  lemma SetPrevOfFree(m: Memory, m': Memory, a: int, b: Block, rest: seq<Block>, p: uint32)
    requires BlockAt(m, a, b) && !b.used && Load(m, a + NEXT) == FirstFree(a + b.size + OVERHEAD, rest, 0)
    requires Seg(m, a + b.size + OVERHEAD, rest, 0, false)
    requires m' == m[a + PREV := p]
    ensures Seg(m', a, [b.(prev := p)] + rest, 0, false)
  {
    SegFrame(m, m', a + b.size + OVERHEAD, rest, 0, false);
    assert BlockAt(m', a, b.(prev := p));
    SegPush(m', a, b.(prev := p), rest, 0, false);
  }

  /** Writing the back link of the first free block. */
  lemma {:induction false} SetPrevInMemory(m: Memory, m': Memory, a: int, bs: seq<Block>, p: uint32)
    requires Seg(m, a, bs, 0, false) && 0 < a
    requires m' == PutPrev(m, FirstFree(a, bs, 0), p)
    ensures Seg(m', a, SetPrev(bs, p), 0, false)
    ensures FirstFree(a, SetPrev(bs, p), 0) == FirstFree(a, bs, 0)
    decreases bs
  {
    if bs != [] {
      var b, rest := bs[0], a + bs[0].size + OVERHEAD;
      if !b.used {
        SetPrevOfFree(m, m', a, b, bs[1..], p);
      } else {
        FirstFreeRange(rest, bs[1..]);
        SetPrevInMemory(m, m', rest, bs[1..], p);
        BlockFrame(m, m', a, b);
        SegPush(m', a, b, SetPrev(bs[1..], p), 0, false);
        assert ([b] + SetPrev(bs[1..], p))[1..] == SetPrev(bs[1..], p);
      }
    }
  }

  /** The last member of the list points to whatever follows the layout. */
  lemma {:induction false} LastLinkPoints(m: Memory, a: int, bs: seq<Block>, nxt: int)
    requires Seg(m, a, bs, nxt, true) && bs != []
    ensures Load(m, LastLink(a, bs) + NEXT) == nxt
    decreases |bs|
  {
    var n := |bs| - 1;
    var l, z := bs[..n], bs[n];
    assert bs == l + [z];
    SegLast(m, a, l, z, nxt, true);
    if n == 0 || !z.used {
      assert LastLink(a, bs) == a + Span(l);
    } else {
      SegOne(m, a + Span(l), z, nxt, false);
      LastLinkPoints(m, a, l, nxt);
    }
  }

  /** The last member of the list is one of the blocks. */
  lemma {:induction false} LastLinkIsBlock(a: int, bs: seq<Block>) returns (j: nat)
    requires bs != []
    ensures j < |bs| && LastLink(a, bs) == Addr(a, bs, j)
    decreases |bs|
  {
    var n := |bs| - 1;
    if n == 0 || !bs[n].used {
      j := n;
    } else {
      j := LastLinkIsBlock(a, bs[..n]);
      assert bs[..n][..j] == bs[..j];
    }
  }

  /** The first free block, if there is one, is one of the blocks. */
  lemma {:induction false} FirstFreeIsBlock(a: int, bs: seq<Block>) returns (j: nat)
    requires FirstFree(a, bs, 0) != 0
    ensures j < |bs| && !bs[j].used && FirstFree(a, bs, 0) == Addr(a, bs, j)
    decreases bs
  {
    if !bs[0].used {
      j := 0;
    } else {
      var i := FirstFreeIsBlock(a + bs[0].size + OVERHEAD, bs[1..]);
      j := i + 1;
      assert bs[..j][1..] == bs[1..][..i];
    }
  }
}
