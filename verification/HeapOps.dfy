/**
 * What each group of writes in kernel/kheap.c does to the layout of the heap: a split, an exact fit, marking and
 * linking a released block, a merge. Each is proved on the heap taken apart around the block concerned.
 */
module HeapOps {
  import opened Words
  import opened HeapBlocks
  import opened HeapMemory

  // ------------------------------------------------------------------
  // The writes
  // ------------------------------------------------------------------

  function TrailerOf(a: uint32, size: uint32): uint32 {
    Add(Add(a, HEADER), size)
  }

  /** `heap_update_block` */
  function UpdateBlock(m: Memory, a: uint32, size: uint32, used: bool): Memory {
    m[a + SIZE := size][a + USED := Flag(used)][TrailerOf(a, size) := size][TrailerOf(a, size) + 4 := Flag(used)]
  }

  /** `heap_create_new_block` */
  function CreateBlock(m: Memory, a: uint32, size: uint32, used: bool, prev: uint32, next: uint32): Memory {
    m[a + SIZE := size][a + USED := Flag(used)][a + PREV := prev][a + NEXT := next]
     [TrailerOf(a, size) := size][TrailerOf(a, size) + 4 := Flag(used)]
  }

  // ------------------------------------------------------------------
  // Payloads that must not change
  // ------------------------------------------------------------------

  ghost predicate InPayload(start: int, bs: seq<Block>, i: nat, x: int)
    requires i < |bs|
  {
    Addr(start, bs, i) + HEADER <= x < Addr(start, bs, i) + HEADER + bs[i].size
  }

  /** `x` lies in the payload of a block that is handed out. */
  ghost predicate InLive(start: int, bs: seq<Block>, x: int) {
    exists i: nat :: i < |bs| && bs[i].used && InPayload(start, bs, i, x)
  }

  /** Tags are in no payload, and a free block's bytes are in no live payload. */
  lemma NotLive(start: int, bs: seq<Block>, j: nat, x: int)
    requires j < |bs|
    requires
      || Addr(start, bs, j) <= x < Addr(start, bs, j) + HEADER
      || Addr(start, bs, j) + HEADER + bs[j].size <= x < Addr(start, bs, j) + OVERHEAD + bs[j].size
      || (!bs[j].used && Addr(start, bs, j) <= x < Addr(start, bs, j) + OVERHEAD + bs[j].size)
    ensures !InLive(start, bs, x)
  {
    forall i: nat | i < |bs| && bs[i].used
      ensures !InPayload(start, bs, i, x)
    {
      if i < j {
        AddrOrder(start, bs, i, j);
      } else if j < i {
        AddrOrder(start, bs, j, i);
      }
    }
  }

  ghost predicate KeepsLive(m: Memory, m': Memory, start: int, bs: seq<Block>) {
    forall x {:trigger Load(m', x)} :: InLive(start, bs, x) ==> Load(m', x) == Load(m, x)
  }

  /** Nothing outside the heap is written. */
  ghost predicate KeepsOutside(m: Memory, m': Memory, start: int) {
    forall x {:trigger Load(m', x)} :: x < start || start + HEAP_MAX_SIZE + OVERHEAD <= x ==> Load(m', x) == Load(m, x)
  }

  ghost predicate OnlyWithin(m: Memory, m': Memory, from: int, to: int) {
    forall x {:trigger Load(m', x)} :: x < from || to <= x ==> Load(m', x) == Load(m, x)
  }

  lemma WithinFree(m: Memory, m': Memory, start: int, bs: seq<Block>, k: nat)
    requires k < |bs| && !bs[k].used && Span(bs) == HEAP_MAX_SIZE + OVERHEAD
    requires OnlyWithin(m, m', Addr(start, bs, k), Addr(start, bs, k + 1))
    ensures KeepsLive(m, m', start, bs) && KeepsOutside(m, m', start)
  {
    AddrNext(start, bs, k);
    AddrBounds(start, bs, k);
    AddrBounds(start, bs, k + 1);
    forall x | InLive(start, bs, x)
      ensures x < Addr(start, bs, k) || Addr(start, bs, k + 1) <= x
    {
      if Addr(start, bs, k) <= x < Addr(start, bs, k + 1) {
        NotLive(start, bs, k, x);
      }
    }
  }

  lemma AddrBounds(start: int, bs: seq<Block>, i: nat)
    requires i <= |bs|
    ensures start <= Addr(start, bs, i) <= start + Span(bs)
    ensures i < |bs| ==> Addr(start, bs, i) + bs[i].size + OVERHEAD <= start + Span(bs)
  {
    assert bs == bs[..i] + bs[i..];
    SpanConcat(bs[..i], bs[i..]);
  }

  // ------------------------------------------------------------------
  // Taking a block of the heap out of its surroundings
  // ------------------------------------------------------------------

  /** The heap taken apart around one block `b`: the blocks `l` before it, itself, and the blocks `r` after it. */
  ghost predicate Apart(m: Memory, start: int, l: seq<Block>, b: Block, r: seq<Block>) {
    var a := start + Span(l);
    var n := FirstFree(a + b.size + OVERHEAD, r, 0);
    && Place(start)
    && Seg(m, start, l, if b.used then n else a, true)
    && BlockAt(m, a, b)
    && (l == [] || !b.used ==> Load(m, a + NEXT) == n)
    && Seg(m, a + b.size + OVERHEAD, r, 0, false)
    && Span(l) + b.size + OVERHEAD + Span(r) == HEAP_MAX_SIZE + OVERHEAD
    && HeadLink(start, (if l == [] then b else l[0]).prev)
    && Load(m, start + HEAP_MAX_SIZE + OVERHEAD) == 0
  }

  /**
   * Enough to know about `m'` for the heap to be in parts again, with `b'` for the block and `r'` for those after it.
   */
  lemma ApartAgain(m: Memory, m': Memory, start: int, l: seq<Block>, b: Block, r: seq<Block>, b': Block, r': seq<Block>,
                   a: int, z: int, f: int, n: int)
    requires Apart(m, start, l, b, r) && KeepsOutside(m, m', start)
    requires b.size as int + Span(r) == b'.size as int + Span(r') && (l == [] ==> HeadLink(start, b'.prev))
    requires a == start + Span(l) && z == a + b'.size + OVERHEAD
    requires n == FirstFree(z, r', 0) && f == if b'.used then n else a
    requires Seg(m', start, l, f, true)
    requires Seg(m', a, [b'], n, l == [])
    requires Seg(m', z, r', 0, false)
    ensures Apart(m', start, l, b', r')
  {
    SegOne(m', a, b', n, l == []);
    assert Load(m', start + HEAP_MAX_SIZE + OVERHEAD) == Load(m, start + HEAP_MAX_SIZE + OVERHEAD);
  }

  lemma TakeApart(m: Memory, start: int, l: seq<Block>, b: Block, r: seq<Block>)
    requires Heap(m, start, l + [b] + r)
    ensures Apart(m, start, l, b, r)
  {
    var a := start + Span(l);
    SegParts(m, start, l, [b], r, true);
    SpanOne(b);
    SegOne(m, a, b, FirstFree(a + b.size + OVERHEAD, r, 0), l == []);
    SpanAround(l, b, r);
    if l != [] {
      assert (l + [b] + r)[0] == l[0];
    }
  }

  lemma PutTogether(m: Memory, start: int, l: seq<Block>, b: Block, r: seq<Block>)
    requires Apart(m, start, l, b, r)
    ensures Heap(m, start, l + [b] + r)
  {
    var a := start + Span(l);
    var n := FirstFree(a + b.size + OVERHEAD, r, 0);
    SpanAround(l, b, r);
    SpanOne(b);
    SegOne(m, a, b, n, l == []);
    SegJoin(m, start, l, [b], r, if b.used then n else a, n, true);
    if l != [] {
      assert (l + [b] + r)[0] == l[0];
    }
  }

  // ------------------------------------------------------------------
  // kmalloc: splitting
  // ------------------------------------------------------------------

  /** `m'` is `m` with the size and flag of the block at `a` rewritten, in its header and in the trailer they imply. */
  ghost predicate Updated(m: Memory, m': Memory, a: int, size: uint32, used: bool) {
    var t := a + HEADER + size;
    && Load(m', a) == size && Load(m', a + USED) == Flag(used)
    && Load(m', t) == size && Load(m', t + 4) == Flag(used)
    && forall x {:trigger Load(m', x)} :: x != a && x != a + USED && x != t && x != t + 4 ==> Load(m', x) == Load(m, x)
  }

  /** `m'` is `m` with all tags of a block at `a` written. */
  ghost predicate Created(m: Memory, m': Memory, a: int, b: Block, next: int) {
    var t := a + HEADER + b.size;
    && Load(m', a) == b.size && Load(m', a + USED) == Flag(b.used)
    && Load(m', a + PREV) == b.prev && Load(m', a + NEXT) == next
    && Load(m', t) == b.size && Load(m', t + 4) == Flag(b.used)
    && forall x {:trigger Load(m', x)} :: x < a || a + HEADER <= x < t || t + TRAILER <= x ==> Load(m', x) == Load(m, x)
  }

  lemma UpdateBlockWrites(m: Memory, a: uint32, size: uint32, used: bool)
    requires a as int + size + OVERHEAD <= TWO32
    ensures Updated(m, UpdateBlock(m, a, size, used), a, size, used)
  {
    assert TrailerOf(a, size) == a as int + HEADER + size;
  }

  lemma CreateBlockWrites(m: Memory, a: uint32, b: Block, next: uint32)
    requires a as int + b.size + OVERHEAD <= TWO32
    ensures Created(m, CreateBlock(m, a, b.size, b.used, b.prev, next), a, b, next)
  {
    assert TrailerOf(a, b.size) == a as int + HEADER + b.size;
  }

  lemma SplitTags(m: Memory, m1: Memory, m2: Memory, a: uint32, b: Block, b1: Block, b2: Block, n: int, head: bool)
    requires BlockAt(m, a, b) && !b.used && Load(m, a + NEXT) == n
    requires 0 < b1.size && b1.size % 4 == 0 && 0 < b2.size && b2.size % 4 == 0
    requires b1 == b.(size := b1.size) && b2 == Block(b2.size, true, a)
    requires b1.size as int + OVERHEAD + b2.size == b.size
    requires Updated(m, m1, a, b1.size, false)
    requires Created(m1, m2, a as int + b1.size + OVERHEAD, b2, Load(m1, a + NEXT))
    ensures Seg(m2, a, [b1, b2], n, head)
    ensures OnlyWithin(m, m2, a, a as int + b.size + OVERHEAD)
  {
    var c := a as int + b1.size + OVERHEAD;
    assert BlockAt(m1, a, b1);
    assert Load(m1, a + NEXT) == n;
    BlockFrame(m1, m2, a, b1);
    assert Load(m2, a + NEXT) == n;
    assert BlockAt(m2, c, b2);
    SegOne(m2, c, b2, n, false);
    SegPush(m2, a, b1, [b2], n, head);
    assert [b1] + [b2] == [b1, b2];
  }

  lemma SpanAround(l: seq<Block>, b: Block, r: seq<Block>)
    ensures Span(l + [b] + r) == Span(l) + b.size + OVERHEAD + Span(r)
  {
    SpanConcat(l, [b]);
    SpanConcat(l + [b], r);
    SpanOne(b);
  }

  lemma SpanOne(b: Block)
    ensures Span([b]) == b.size + OVERHEAD
  {
    assert [b][1..] == [];
  }

  /** The two blocks a split makes of block `b` at address `a`. */
  function Pieces(a: uint32, b: Block, request: uint32): (r: seq<Block>)
    requires request as int + OVERHEAD <= b.size
    ensures |r| == 2
  {
    [b.(size := b.size - request - OVERHEAD), Block(request, true, a)]
  }

  /** The writes of a split, seen from the heap before it. */
  ghost predicate SplitWrites(m: Memory, m1: Memory, m2: Memory, a: uint32, b: Block, request: uint32)
    requires request as int + OVERHEAD <= b.size
  {
    var p := Pieces(a, b, request);
    && Updated(m, m1, a, p[0].size, false)
    && Created(m1, m2, a as int + p[0].size + OVERHEAD, p[1], Load(m1, a + NEXT))
  }

  lemma SplitParts(m: Memory, m1: Memory, m2: Memory, start: int, l: seq<Block>, b: Block, r: seq<Block>,
                   r': seq<Block>, a: uint32, b1: Block, b2: Block)
    requires Apart(m, start, l, b, r) && !b.used && a == start + Span(l)
    requires 0 < b1.size && b1.size % 4 == 0 && 0 < b2.size && b2.size % 4 == 0
    requires b1 == b.(size := b1.size) && b2 == Block(b2.size, true, a)
    requires b1.size as int + OVERHEAD + b2.size == b.size
    requires Updated(m, m1, a, b1.size, false)
    requires Created(m1, m2, a as int + b1.size + OVERHEAD, b2, Load(m1, a + NEXT))
    requires r' == [b2] + r
    ensures Apart(m2, start, l, b1, r')
    ensures OnlyWithin(m, m2, a, a as int + b.size + OVERHEAD)
  {
    var n := FirstFree(a + b.size + OVERHEAD, r, 0);
    var z := a + b1.size + OVERHEAD;
    assert Seg(m2, a, [b1], n, l == []) && BlockAt(m2, z, b2) && OnlyWithin(m, m2, a, a + b.size + OVERHEAD) by {
      SplitTags(m, m1, m2, a, b, b1, b2, n, l == []);
      PiecesApart(m2, a, b1, b2, n, l == []);
    }
    assert Seg(m2, start, l, a, true) && KeepsOutside(m, m2, start) by {
      SegFrame(m, m2, start, l, a, true);
    }
    assert Seg(m2, z, r', 0, false) && Span(r') == b2.size + OVERHEAD + Span(r) && FirstFree(z, r', 0) == n by {
      SplitAfter(m, m2, a, b, b1, b2, r, r');
    }
    ApartAgain(m, m2, start, l, b, r, b1, r', a, z, a, n);
  }

  lemma SplitAfter(m: Memory, m2: Memory, a: int, b: Block, b1: Block, b2: Block, r: seq<Block>, r': seq<Block>)
    requires Seg(m, a + b.size + OVERHEAD, r, 0, false) && OnlyWithin(m, m2, a, a + b.size + OVERHEAD)
    requires b2.used && BlockAt(m2, a + b1.size + OVERHEAD, b2) && b1.size as int + OVERHEAD + b2.size == b.size
    requires r' == [b2] + r
    ensures Seg(m2, a + b1.size + OVERHEAD, r', 0, false)
    ensures Span(r') == b2.size + OVERHEAD + Span(r)
    ensures FirstFree(a + b1.size + OVERHEAD, r', 0) == FirstFree(a + b.size + OVERHEAD, r, 0)
  {
    SegFrame(m, m2, a + b.size + OVERHEAD, r, 0, false);
    SegPush(m2, a + b1.size + OVERHEAD, b2, r, 0, false);
    PushUsed(a + b1.size + OVERHEAD, b2, r, r');
  }

  lemma PushUsed(a: int, b: Block, r: seq<Block>, r': seq<Block>)
    requires r' == [b] + r && b.used
    ensures Span(r') == b.size + OVERHEAD + Span(r)
    ensures FirstFree(a, r', 0) == FirstFree(a + b.size + OVERHEAD, r, 0)
  {
    assert r'[1..] == r;
  }

  lemma PiecesApart(m: Memory, a: int, b1: Block, b2: Block, n: int, head: bool)
    requires Seg(m, a, [b1, b2], n, head) && !b1.used && b2.used
    ensures Seg(m, a, [b1], n, head) && BlockAt(m, a + b1.size + OVERHEAD, b2)
  {
    assert [b1, b2] == [b1] + [b2];
    SpanOne(b1);
    SegConcat(m, a, [b1], [b2], n, head);
    SegOne(m, a + b1.size + OVERHEAD, b2, n, false);
  }

  /** Splitting off the end of a free block leaves a heap with the request carved out of it. */
  lemma SplitInMemory(m: Memory, m1: Memory, m2: Memory, start: int, bs: seq<Block>, k: nat, request: uint32)
    requires Heap(m, start, bs) && k < |bs| && !bs[k].used
    requires 0 < request && request % 4 == 0 && request as int + OVERHEAD < bs[k].size
    requires 0 <= Addr(start, bs, k) < TWO32
    requires SplitWrites(m, m1, m2, Addr(start, bs, k), bs[k], request)
    ensures Heap(m2, start, Split(start, bs, k, request))
    ensures KeepsLive(m, m2, start, bs) && KeepsOutside(m, m2, start)
  {
    var l, b, r := bs[..k], bs[k], bs[k + 1..];
    assert bs == l + [b] + r;
    var p := Pieces(Addr(start, bs, k), b, request);
    TakeApart(m, start, l, b, r);
    SplitParts(m, m1, m2, start, l, b, r, [p[1]] + r, Addr(start, bs, k), p[0], p[1]);
    PutTogether(m2, start, l, p[0], [p[1]] + r);
    assert Split(start, bs, k, request) == l + [p[0]] + ([p[1]] + r);
    AddrNext(start, bs, k);
    WithinFree(m, m2, start, bs, k);
  }

  // ------------------------------------------------------------------
  // kmalloc: an exact fit
  // ------------------------------------------------------------------

  /** The writes that hand out a whole block `b` at `a` whose successor in the free list is at `n`. */
  ghost predicate TakeWrites(m: Memory, m': Memory, a: int, b: Block, n: int) {
    var t := a + HEADER + b.size;
    && Load(m', a) == b.size && Load(m', a + USED) == 1
    && Load(m', t) == b.size && Load(m', t + 4) == 1
    && (b.prev != 0 ==> Load(m', b.prev + NEXT) == n)
    && (n != 0 ==> Load(m', n + PREV) == b.prev)
    && forall x {:trigger Load(m', x)} ::
         x != a && x != a + USED && x != t && x != t + 4 && !(b.prev != 0 && x == b.prev + NEXT) &&
           !(n != 0 && x == n + PREV)
         ==> Load(m', x) == Load(m, x)
  }

  /** The back link of block `k` is right: the code will unlink the block from its true predecessor. */
  predicate BackLinkRight(start: int, bs: seq<Block>, k: nat)
    requires k < |bs|
  {
    k == 0 || bs[k].prev == LastLink(start, bs[..k])
  }

  /** The blocks before the one taken: their list now ends at the successor. */
  lemma TakeBefore(m: Memory, m': Memory, start: int, l: seq<Block>, b: Block, n: int)
    requires Seg(m, start, l, start + Span(l), true) && l != [] && 0 < start
    requires b.prev == LastLink(start, l) && 0 <= n < TWO32
    requires n == 0 || start + Span(l) + OVERHEAD <= n
    requires TakeWrites(m, m', start + Span(l), b, n)
    ensures Seg(m', start, l, n, true)
  {
    LastLinkRange(start, l);
    var m1 := m[b.prev + NEXT := n];
    Relink(m, m1, start, l, start + Span(l), n);
    SegFrame(m1, m', start, l, n, true);
  }

  /** The blocks after the one taken: the first free one gets a new back link. */
  lemma TakeAfter(m: Memory, m': Memory, start: int, a: int, b: Block, r: seq<Block>)
    requires Seg(m, a + b.size + OVERHEAD, r, 0, false) && 0 < start <= a
    requires b.prev <= a
    requires TakeWrites(m, m', a, b, FirstFree(a + b.size + OVERHEAD, r, 0))
    ensures Seg(m', a + b.size + OVERHEAD, SetPrev(r, b.prev), 0, false)
    ensures FirstFree(a + b.size + OVERHEAD, SetPrev(r, b.prev), 0) == FirstFree(a + b.size + OVERHEAD, r, 0)
  {
    var rest := a + b.size + OVERHEAD;
    var n := FirstFree(rest, r, 0);
    FirstFreeRange(rest, r);
    var m1 := PutPrev(m, n, b.prev);
    SetPrevInMemory(m, m1, rest, r, b.prev);
    SegFrame(m1, m', rest, SetPrev(r, b.prev), 0, false);
  }

  /** The block itself: handed out, and out of the list unless it heads it. */
  lemma TakeItself(m: Memory, m': Memory, a: int, b: Block, n: int, head: bool)
    requires BlockAt(m, a, b) && Load(m, a + NEXT) == n && 0 < a
    requires (b.prev == a || b.prev + OVERHEAD <= a) && (n == 0 || a + b.size + OVERHEAD <= n)
    requires TakeWrites(m, m', a, b, n)
    ensures Seg(m', a, [b.(used := true)], n, head)
  {
    SegOne(m', a, b.(used := true), n, head);
  }

  /** An exact fit with the right back link takes the block out of the heap's free list. */
  lemma TakeParts(m: Memory, m': Memory, start: int, l: seq<Block>, b: Block, r: seq<Block>, n: int)
    requires Apart(m, start, l, b, r) && !b.used
    requires n == FirstFree(start + Span(l) + b.size + OVERHEAD, r, 0)
    requires l != [] ==> b.prev == LastLink(start, l)
    requires TakeWrites(m, m', start + Span(l), b, n)
    ensures Apart(m', start, l, b.(used := true), SetPrev(r, b.prev))
  {
    var a := start + Span(l);
    var z := a + b.size + OVERHEAD;
    FirstFreeRange(z, r);
    TakeKeepsOutside(m, m', start, l, b, r, n);
    assert b.prev == a || b.prev + OVERHEAD <= a by {
      if l != [] {
        LastLinkRange(start, l);
      }
    }
    assert Seg(m', start, l, n, true) by {
      if l != [] {
        TakeBefore(m, m', start, l, b, n);
      }
    }
    assert Seg(m', a, [b.(used := true)], n, l == []) by {
      TakeItself(m, m', a, b, n, l == []);
    }
    TakeAfter(m, m', start, a, b, r);
    ApartAgain(m, m', start, l, b, r, b.(used := true), SetPrev(r, b.prev), a, z, n, n);
  }

  lemma TakeKeepsOutside(m: Memory, m': Memory, start: int, l: seq<Block>, b: Block, r: seq<Block>, n: int)
    requires Apart(m, start, l, b, r)
    requires n == FirstFree(start + Span(l) + b.size + OVERHEAD, r, 0)
    requires if l == [] then HeadLink(start, b.prev) else b.prev == LastLink(start, l)
    requires TakeWrites(m, m', start + Span(l), b, n)
    ensures KeepsOutside(m, m', start)
  {
    if l != [] {
      LastLinkRange(start, l);
    }
    if n != 0 {
      var j := FirstFreeIsBlock(start + Span(l) + b.size + OVERHEAD, r);
      AddrBounds(start + Span(l) + b.size + OVERHEAD, r, j);
    }
  }

  lemma TakeInMemory(m: Memory, m': Memory, start: int, bs: seq<Block>, k: nat)
    requires Heap(m, start, bs) && k < |bs| && !bs[k].used && BackLinkRight(start, bs, k)
    requires TakeWrites(m, m', Addr(start, bs, k), bs[k], Load(m, Addr(start, bs, k) + NEXT))
    ensures Heap(m', start, TakeWhole(bs, k))
  {
    var l, b, r := bs[..k], bs[k], bs[k + 1..];
    assert bs == l + [b] + r;
    TakeApart(m, start, l, b, r);
    TakeParts(m, m', start, l, b, r, Load(m, Addr(start, bs, k) + NEXT));
    PutTogether(m', start, l, b.(used := true), SetPrev(r, b.prev));
  }

  // ------------------------------------------------------------------
  // kfree: marking and linking
  // ------------------------------------------------------------------

  /** The writes that mark the block `b` at `a` free, zero its payload and link it behind the list member at `last`. */
  ghost predicate FreeWrites(m: Memory, m': Memory, a: int, b: Block, last: int) {
    var t := a + HEADER + b.size;
    && Load(m', a + USED) == 0 && Load(m', t + 4) == 0
    && (last != a ==> Load(m', a + NEXT) == Load(m, last + NEXT))
    && Load(m', a + PREV) == last
    && Load(m', last + NEXT) == a
    && forall x {:trigger Load(m', x)} ::
         x != a + USED && x != t + 4 && x != a + NEXT && x != a + PREV && x != last + NEXT && !(a + HEADER <= x < t)
         ==> Load(m', x) == Load(m, x)
  }

  lemma FreeParts(m: Memory, m': Memory, start: int, l: seq<Block>, b: Block, r: seq<Block>, last: uint32, b': Block)
    requires Apart(m, start, l, b, r) && b.used && l != []
    requires last == LastLink(start, l) && b' == Block(b.size, false, last)
    requires FreeWrites(m, m', start + Span(l), b, last)
    ensures Apart(m', start, l, b', r)
    ensures KeepsOutside(m, m', start)
  {
    var a := start + Span(l);
    var z := a + b.size + OVERHEAD;
    var n := FirstFree(z, r, 0);
    FreeKeepsOutside(m, m', start, l, b, r);
    assert Seg(m', start, l, a, true) by {
      FreeBefore(m, m', start, l, b, n);
    }
    assert Seg(m', a, [b'], n, false) by {
      FreeItself(m, m', start, l, b, n);
    }
    assert Seg(m', z, r, 0, false) by {
      LastLinkRange(start, l);
      SegFrame(m, m', z, r, 0, false);
    }
    ApartAgain(m, m', start, l, b, r, b', r, a, z, a, n);
  }

  lemma FreeKeepsOutside(m: Memory, m': Memory, start: int, l: seq<Block>, b: Block, r: seq<Block>)
    requires l != [] && Span(l) + b.size + OVERHEAD + Span(r) == HEAP_MAX_SIZE + OVERHEAD
    requires FreeWrites(m, m', start + Span(l), b, LastLink(start, l))
    ensures KeepsOutside(m, m', start)
  {
    LastLinkRange(start, l);
  }

  lemma FreeInMemory(m: Memory, m': Memory, start: int, bs: seq<Block>, i: nat)
    requires Heap(m, start, bs) && 0 < i < |bs| && bs[i].used
    requires 0 <= LastLink(start, bs[..i]) < TWO32
    requires FreeWrites(m, m', Addr(start, bs, i), bs[i], LastLink(start, bs[..i]))
    ensures Heap(m', start, Freed(start, bs, i))
    ensures KeepsOutside(m, m', start)
  {
    var l, b, r := bs[..i], bs[i], bs[i + 1..];
    assert bs == l + [b] + r;
    TakeApart(m, start, l, b, r);
    FreeParts(m, m', start, l, b, r, LastLink(start, l), Block(b.size, false, LastLink(start, l)));
    PutTogether(m', start, l, Block(b.size, false, LastLink(start, l)), r);
  }

  lemma FreeItself(m: Memory, m': Memory, start: int, l: seq<Block>, b: Block, n: int)
    requires Seg(m, start, l, n, true) && l != [] && 0 < start
    requires BlockAt(m, start + Span(l), b) && 0 <= LastLink(start, l) < TWO32
    requires FreeWrites(m, m', start + Span(l), b, LastLink(start, l))
    ensures Seg(m', start + Span(l), [Block(b.size, false, LastLink(start, l))], n, false)
  {
    LastLinkRange(start, l);
    LastLinkPoints(m, start, l, n);
    SegOne(m', start + Span(l), Block(b.size, false, LastLink(start, l)), n, false);
  }

  lemma FreeBefore(m: Memory, m': Memory, start: int, l: seq<Block>, b: Block, n: int)
    requires Seg(m, start, l, n, true) && l != [] && 0 < start && start + Span(l) < TWO32
    requires FreeWrites(m, m', start + Span(l), b, LastLink(start, l))
    ensures Seg(m', start, l, start + Span(l), true)
  {
    LastLinkRange(start, l);
    var m1 := m[LastLink(start, l) + NEXT := start + Span(l)];
    Relink(m, m1, start, l, n, start + Span(l));
    SegFrame(m1, m', start, l, start + Span(l), true);
  }

  // ------------------------------------------------------------------
  // kfree: coalescing
  // ------------------------------------------------------------------

  /** The writes that make the block at `a` absorb its successor, whose trailer is at `t`. */
  ghost predicate MergeWrites(m: Memory, m': Memory, a: int, size: uint32, next: uint32, t: int) {
    && Load(m', a) == size && Load(m', a + NEXT) == next
    && Load(m', t) == size && Load(m', t + 4) == 0
    && forall x {:trigger Load(m', x)} :: x != a && x != a + NEXT && x != t && x != t + 4 ==> Load(m', x) == Load(m, x)
  }

  lemma MergedBlock(m: Memory, m': Memory, a: int, x: Block, y: Block, n: int, head: bool)
    requires BlockAt(m, a, x) && BlockAt(m, a + x.size + OVERHEAD, y) && !x.used && !y.used
    requires Load(m, a + x.size + OVERHEAD + NEXT) == n
    requires x.size as int + OVERHEAD + y.size < TWO32
    requires MergeWrites(m, m', a, x.size + OVERHEAD + y.size, Load(m, a + x.size + OVERHEAD + NEXT),
                         a + x.size + OVERHEAD + HEADER + y.size)
    ensures Seg(m', a, [x.(size := x.size + OVERHEAD + y.size)], n, head)
    ensures OnlyWithin(m, m', a, a + x.size + OVERHEAD + y.size + OVERHEAD)
  {
    SegOne(m', a, x.(size := x.size + OVERHEAD + y.size), n, head);
  }

  /** A free block absorbing a free successor, with the trailer write aimed at the merged block's own trailer. */
  lemma MergeParts(m: Memory, m': Memory, start: int, l: seq<Block>, x: Block, y: Block, r: seq<Block>, r': seq<Block>)
    requires Apart(m, start, l, x, r') && r' == [y] + r && !x.used && !y.used
    requires x.size as int + OVERHEAD + y.size < TWO32
    requires var a := start + Span(l); var c := a + x.size + OVERHEAD;
             MergeWrites(m, m', a, x.size + OVERHEAD + y.size, Load(m, c + NEXT), c + HEADER + y.size)
    ensures Apart(m', start, l, x.(size := x.size + OVERHEAD + y.size), r)
  {
    var a := start + Span(l);
    var c := a + x.size + OVERHEAD;
    var xy := x.(size := x.size + OVERHEAD + y.size);
    var n := FirstFree(c + y.size + OVERHEAD, r, 0);
    PopFree(m, c, y, r, r');
    MergedBlock(m, m', a, x, y, n, l == []);
    MergeAround(m, m', start, l, a, c + y.size + OVERHEAD, r);
    ApartAgain(m, m', start, l, x, r', xy, r, a, c + y.size + OVERHEAD, a, n);
  }

  lemma MergeAround(m: Memory, m': Memory, start: int, l: seq<Block>, a: int, z: int, r: seq<Block>)
    requires Seg(m, start, l, a, true) && a == start + Span(l) && Seg(m, z, r, 0, false)
    requires a <= z && z + Span(r) == start + HEAP_MAX_SIZE + OVERHEAD
    requires OnlyWithin(m, m', a, z)
    ensures Seg(m', start, l, a, true) && Seg(m', z, r, 0, false) && KeepsOutside(m, m', start)
  {
    SegFrame(m, m', start, l, a, true);
    SegFrame(m, m', z, r, 0, false);
  }

  lemma PopFree(m: Memory, a: int, b: Block, r: seq<Block>, r': seq<Block>)
    requires r' == [b] + r && !b.used && Seg(m, a, r', 0, false)
    ensures BlockAt(m, a, b) && Seg(m, a + b.size + OVERHEAD, r, 0, false)
    ensures Load(m, a + NEXT) == FirstFree(a + b.size + OVERHEAD, r, 0)
    ensures Span(r') == b.size + OVERHEAD + Span(r)
  {
    assert r'[1..] == r;
  }

  lemma MergeInMemory(m: Memory, m': Memory, start: int, bs: seq<Block>, i: nat)
    requires Heap(m, start, bs) && i + 1 < |bs| && !bs[i].used && !bs[i + 1].used
    requires bs[i].size as int + OVERHEAD + bs[i + 1].size < TWO32
    requires var a := Addr(start, bs, i); var c := a + bs[i].size + OVERHEAD;
             MergeWrites(m, m', a, bs[i].size + OVERHEAD + bs[i + 1].size, Load(m, c + NEXT),
                         c + HEADER + bs[i + 1].size)
    ensures Heap(m', start, Merge(bs, i))
  {
    var l, x, y, r := bs[..i], bs[i], bs[i + 1], bs[i + 2..];
    assert bs == l + [x] + ([y] + r);
    TakeApart(m, start, l, x, [y] + r);
    MergeParts(m, m', start, l, x, y, r, [y] + r);
    PutTogether(m', start, l, x.(size := x.size + OVERHEAD + y.size), r);
  }
}
