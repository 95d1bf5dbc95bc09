/** Runs of kernel/kheap.c in memory, with the owners of live payloads writing to them between the calls. */
module HeapHistory {
  import opened Words
  import opened HeapBlocks
  import opened HeapMemory
  import opened HeapOps
  import opened HeapFaults
  import opened HeapRelease
  import opened HeapRuns
  import opened HeapCalls

  // ------------------------------------------------------------------
  // Writing to live payloads
  // ------------------------------------------------------------------

  /** Headers and trailers of the blocks laid out from `a` are the same in both memories. */
  ghost predicate TagsKept(m: Memory, m': Memory, a: int, bs: seq<Block>)
    decreases bs
  {
    bs == [] || (
      && Same(m, m', a, a + HEADER)
      && Same(m, m', a + HEADER + bs[0].size, a + OVERHEAD + bs[0].size)
      && TagsKept(m, m', a + bs[0].size + OVERHEAD, bs[1..]))
  }

  /** A layout is its tags. */
  lemma {:induction false} SegOfTags(m: Memory, m': Memory, a: int, bs: seq<Block>, nxt: int, head: bool)
    requires Seg(m, a, bs, nxt, head) && TagsKept(m, m', a, bs)
    ensures Seg(m', a, bs, nxt, head)
    decreases bs
  {
    if bs != [] {
      assert BlockAt(m', a, bs[0]) by {
        BlockFrame(m, m', a, bs[0]);
      }
      SegOfTags(m, m', a + bs[0].size + OVERHEAD, bs[1..], nxt, false);
    }
  }

  /** Only words in live payloads change. */
  ghost predicate OnlyLive(m: Memory, m': Memory, start: int, bs: seq<Block>) {
    forall x {:trigger Load(m', x)} :: Load(m', x) == Load(m, x) || InLive(start, bs, x)
  }

  lemma {:induction false} TagsNotLive(m: Memory, m': Memory, start: int, bs: seq<Block>, k: nat)
    requires OnlyLive(m, m', start, bs) && k <= |bs|
    ensures TagsKept(m, m', Addr(start, bs, k), bs[k..])
    decreases |bs| - k
  {
    if k < |bs| {
      TagsNotLive(m, m', start, bs, k + 1);
      AddrNext(start, bs, k);
      assert bs[k..][1..] == bs[k + 1..];
      forall x | Addr(start, bs, k) <= x < Addr(start, bs, k + 1)
        ensures InPayload(start, bs, k, x) || Load(m', x) == Load(m, x)
      {
        if !InPayload(start, bs, k, x) {
          NotLive(start, bs, k, x);
        }
      }
    }
  }

  /** Whatever is written to live payloads, the heap stays. */
  lemma LiveWritesKeepHeap(m: Memory, m': Memory, start: int, bs: seq<Block>)
    requires Heap(m, start, bs) && OnlyLive(m, m', start, bs)
    ensures Heap(m', start, bs)
  {
    TagsNotLive(m, m', start, bs, 0);
    assert bs[..0] == [] && bs[0..] == bs;
    SegOfTags(m, m', start, bs, 0, true);
    GuardNotLive(start, bs);
  }

  lemma GuardNotLive(start: int, bs: seq<Block>)
    ensures !InLive(start, bs, start + Span(bs))
  {
    forall i: nat | i < |bs| && bs[i].used
      ensures !InPayload(start, bs, i, start + Span(bs))
    {
      AddrBounds(start, bs, i);
    }
  }

  // ------------------------------------------------------------------
  // What calls do to the words of live payloads
  // ------------------------------------------------------------------

  lemma LiveWord(start: int, bs: seq<Block>, x: int) returns (p: int, s: int)
    requires InLive(start, bs, x)
    ensures IsLive(start, bs, p, s) && p <= x < p + s
  {
    var i: nat :| i < |bs| && bs[i].used && InPayload(start, bs, i, x);
    BlockIsLive(start, bs, i);
    p, s := Addr(start, bs, i) + HEADER, bs[i].size;
  }

  lemma WordLive(start: int, bs: seq<Block>, x: int, p: int, s: int)
    requires IsLive(start, bs, p, s) && p <= x < p + s
    ensures InLive(start, bs, x)
  {
    var i := LiveIsBlock(start, bs, p, s);
    assert InPayload(start, bs, i, x);
  }

  /** A request takes no word out of the live payloads. */
  lemma MallocKeepsWord(start: uint32, bs: seq<Block>, size: uint32, bs': seq<Block>, x: int)
    requires Settled(start, bs) && InLive(start, bs, x)
    requires Next(start, bs, Malloc(size), false, false) == Some(bs')
    ensures InLive(start, bs', x)
  {
    var k := Best(bs, RoundUp4(size));
    if size != 0 && k >= 0 {
      AddrBounds(start, bs, k);
      RoundUp4Value(size);
      AllocatedLive(start, bs, k, RoundUp4(size));
      var p, s := LiveWord(start, bs, x);
      WordLive(start, bs', x, p, s);
    }
  }

  /** A release takes only the released payload's words out of the live ones. */
  lemma FreeKeepsWord(start: uint32, bs: seq<Block>, i: nat, x: int)
    requires Settled(start, bs) && i < |bs| && bs[i].used && (i == 0 ==> RightFree(bs, 0))
    requires InLive(start, bs, x) && !InPayload(start, bs, i, x)
    ensures InLive(start, Released(start, bs, i), x)
  {
    ReleasedLive(start, bs, i);
    var p, s := LiveWord(start, bs, x);
    BlockIsLive(start, bs, i);
    if p == Addr(start, bs, i) + HEADER {
      LiveDisjoint(start, bs, p, s, p, bs[i].size);
    }
    WordLive(start, Released(start, bs, i), x, p, s);
  }

  // ------------------------------------------------------------------
  // Histories
  // ------------------------------------------------------------------

  /** A call of the heap, or an owner's store of a word to its payload. */
  datatype Action = Do(call: Call) | Store(addr: int, value: uint32)

  /**
   * Memory, the blocks it stands for, and what the owners of live payloads have last written to each of their words.
   */
  datatype World = World(mem: Memory, blocks: seq<Block>, written: map<int, uint32>)

  /** What the run is under: the form of the left merge, and which addresses can be read. */
  datatype Setting = Setting(repaired: bool, readable: int -> bool)

  /** The release of the first block, if it came now, would read what it looks at and find no free block before it. */
  predicate QuietNow(m: Memory, start: uint32, bs: seq<Block>, readable: int -> bool)
    requires Tiled(start, bs)
  {
    Quiet(Linked(m, start, bs, 0), start, readable)
  }

  /** The blocks after a call, given all that memory shows before it. */
  function NextBlocks(start: uint32, w: World, call: Call, z: Setting): Option<seq<Block>>
    requires Tiled(start, w.blocks)
  {
    Next(start, w.blocks, call, z.repaired, QuietNow(w.mem, start, w.blocks, z.readable))
  }

  /** Memory after a call. */
  function CallMemory(m: Memory, start: uint32, bs: seq<Block>, call: Call, repaired: bool): Memory
    requires Tiled(start, bs)
  {
    match call
    case Malloc(size) => MallocMemory(m, start, bs, size)
    case Free(ptr) =>
      var i := LiveIndex(start, bs, ptr);
      if start <= ptr <= start + HEAP_MAX_SIZE + OVERHEAD && i >= 0 then FreeMemory(m, start, bs, i, repaired) else m
  }

  /** What the owners still hold after a call: a release takes the words of its payload from them. */
  ghost function StillHeld(start: uint32, bs: seq<Block>, call: Call, written: map<int, uint32>): map<int, uint32> {
    match call
    case Malloc(_) => written
    case Free(ptr) =>
      var i := LiveIndex(start, bs, ptr);
      if i < 0 then written else map x | x in written && !InPayload(start, bs, i, x) :: written[x]
  }

  ghost function Act(start: uint32, w: World, act: Action, z: Setting): World
    requires Tiled(start, w.blocks)
  {
    match act
    case Do(call) =>
      var n := NextBlocks(start, w, call, z);
      World(CallMemory(w.mem, start, w.blocks, call, z.repaired), if n.Some? then n.value else w.blocks,
            StillHeld(start, w.blocks, call, w.written))
    case Store(x, v) => World(w.mem[x := v], w.blocks, w.written[x := v])
  }

  /** A call may come when it is sound, and every store goes to a live payload. */
  ghost predicate MayAct(start: uint32, w: World, act: Action, z: Setting)
    requires Tiled(start, w.blocks)
  {
    match act
    case Do(call) => NextBlocks(start, w, call, z).Some?
    case Store(x, _) => InLive(start, w.blocks, x)
  }

  /** Memory stands for the blocks, and every word an owner has written is live and holds what was written last. */
  ghost predicate Kept(start: uint32, w: World) {
    && Heap(w.mem, start, w.blocks)
    && Settled(start, w.blocks)
    && forall x :: x in w.written ==> InLive(start, w.blocks, x) && Load(w.mem, x) == w.written[x]
  }

  lemma StoreKept(start: uint32, w: World, x: int, v: uint32, z: Setting)
    requires Kept(start, w) && InLive(start, w.blocks, x)
    ensures Kept(start, Act(start, w, Store(x, v), z)) && KeepsOutside(w.mem, w.mem[x := v], start)
  {
    LiveWritesKeepHeap(w.mem, w.mem[x := v], start, w.blocks);
    var i: nat :| i < |w.blocks| && w.blocks[i].used && InPayload(start, w.blocks, i, x);
    AddrBounds(start, w.blocks, i);
  }

  lemma MallocKept(start: uint32, w: World, size: uint32, z: Setting)
    requires Kept(start, w) && NextBlocks(start, w, Malloc(size), z).Some?
    ensures var w' := Act(start, w, Do(Malloc(size)), z); Kept(start, w') && KeepsOutside(w.mem, w'.mem, start)
  {
    var bs := w.blocks;
    NextSettled(start, bs, Malloc(size), false, false);
    var bs' := Next(start, bs, Malloc(size), false, false).value;
    MallocFit(w.mem, start, bs, size, false, false);
    forall x | x in w.written
      ensures InLive(start, bs', x)
    {
      MallocKeepsWord(start, bs, size, bs', x);
    }
  }

  /** What a sound release leaves, of whichever block. */
  lemma FreeFit(start: uint32, w: World, ptr: uint32, i: nat, z: Setting)
    requires Kept(start, w) && NextBlocks(start, w, Free(ptr), z).Some? && i == LiveIndex(start, w.blocks, ptr)
    requires start <= ptr <= start + HEAP_MAX_SIZE + OVERHEAD
    ensures i < |w.blocks| && w.blocks[i].used && (i == 0 ==> RightFree(w.blocks, 0))
    ensures NextBlocks(start, w, Free(ptr), z) == Some(Released(start, w.blocks, i))
    ensures var m' := FreeMemory(w.mem, start, w.blocks, i, z.repaired);
            Heap(m', start, Released(start, w.blocks, i)) && KeepsOthers(w.mem, m', start, w.blocks, i)
  {
    var quiet := QuietNow(w.mem, start, w.blocks, z.readable);
    ReleaseFit(w.mem, start, w.blocks, i, z.repaired, quiet);
  }

  lemma FreeKept(start: uint32, w: World, ptr: uint32, i: nat, z: Setting)
    requires Kept(start, w) && NextBlocks(start, w, Free(ptr), z).Some? && i == LiveIndex(start, w.blocks, ptr)
    requires start <= ptr <= start + HEAP_MAX_SIZE + OVERHEAD
    ensures var w' := Act(start, w, Do(Free(ptr)), z); Kept(start, w') && KeepsOutside(w.mem, w'.mem, start)
  {
    FreeFit(start, w, ptr, i, z);
    ReleasedLive(start, w.blocks, i);
    FreeKeepsWritten(start, w, i, FreeMemory(w.mem, start, w.blocks, i, z.repaired));
  }

  lemma FreeKeepsWritten(start: uint32, w: World, i: nat, m': Memory)
    requires Kept(start, w) && i < |w.blocks| && w.blocks[i].used && (i == 0 ==> RightFree(w.blocks, 0))
    requires KeepsOthers(w.mem, m', start, w.blocks, i)
    ensures forall x :: x in w.written && !InPayload(start, w.blocks, i, x) ==>
              InLive(start, Released(start, w.blocks, i), x) && Load(m', x) == w.written[x]
  {
    forall x | x in w.written && !InPayload(start, w.blocks, i, x)
      ensures InLive(start, Released(start, w.blocks, i), x) && Load(m', x) == Load(w.mem, x)
    {
      FreeKeepsWord(start, w.blocks, i, x);
      var j: nat :| j < |w.blocks| && w.blocks[j].used && InPayload(start, w.blocks, j, x);
    }
  }

  lemma ActKept(start: uint32, w: World, act: Action, z: Setting)
    requires Kept(start, w) && MayAct(start, w, act, z)
    ensures var w' := Act(start, w, act, z); Kept(start, w') && KeepsOutside(w.mem, w'.mem, start)
  {
    match act
    case Do(Malloc(size)) => MallocKept(start, w, size, z);
    case Do(Free(ptr)) =>
      if start <= ptr <= start + HEAP_MAX_SIZE + OVERHEAD {
        FreeKept(start, w, ptr, LiveIndex(start, w.blocks, ptr), z);
      } else {
        RefusedKept(start, w, ptr, z);
      }
    case Store(x, v) => StoreKept(start, w, x, v, z);
  }

  lemma RefusedKept(start: uint32, w: World, ptr: uint32, z: Setting)
    requires Kept(start, w) && !(start <= ptr <= start + HEAP_MAX_SIZE + OVERHEAD)
    ensures Act(start, w, Do(Free(ptr)), z) == w
  {
    var i := LiveIndex(start, w.blocks, ptr);
    if i >= 0 {
      AddrBounds(start, w.blocks, i);
    }
  }

  lemma ActSettled(start: uint32, w: World, act: Action, z: Setting)
    requires Settled(start, w.blocks)
    ensures Settled(start, Act(start, w, act, z).blocks)
  {
    match act
    case Do(call) =>
      NextSettled(start, w.blocks, call, z.repaired, QuietNow(w.mem, start, w.blocks, z.readable));
    case Store(_, _) =>
  }

  ghost predicate AllMayAct(start: uint32, w: World, acts: seq<Action>, z: Setting)
    requires Settled(start, w.blocks)
    decreases |acts|
  {
    acts == [] || (
      && MayAct(start, w, acts[0], z)
      && (ActSettled(start, w, acts[0], z);
          AllMayAct(start, Act(start, w, acts[0], z), acts[1..], z)))
  }

  ghost function After(start: uint32, w: World, acts: seq<Action>, z: Setting): (r: World)
    requires Settled(start, w.blocks)
    ensures Settled(start, r.blocks)
    decreases |acts|
  {
    if acts == [] then w
    else
      ActSettled(start, w, acts[0], z);
      After(start, Act(start, w, acts[0], z), acts[1..], z)
  }

  /**
   * Over every history of sound calls and stores memory stands for the blocks, every word of a live payload holds what
   * its owner wrote last, and nothing outside the heap is written.
   */
  lemma {:induction false} HistoryKept(start: uint32, w: World, acts: seq<Action>, z: Setting)
    requires Kept(start, w) && AllMayAct(start, w, acts, z)
    ensures var w' := After(start, w, acts, z); Kept(start, w') && KeepsOutside(w.mem, w'.mem, start)
    decreases |acts|
  {
    if acts != [] {
      var w1 := Act(start, w, acts[0], z);
      ActKept(start, w, acts[0], z);
      HistoryKept(start, w1, acts[1..], z);
      OutsideTwice(w.mem, w1.mem, After(start, w, acts, z).mem, start);
    }
  }

  lemma OutsideTwice(m: Memory, m1: Memory, m2: Memory, start: int)
    requires KeepsOutside(m, m1, start) && KeepsOutside(m1, m2, start)
    ensures KeepsOutside(m, m2, start)
  {
    forall x | x < start || start + HEAP_MAX_SIZE + OVERHEAD <= x
      ensures Load(m2, x) == Load(m, x)
    {
      assert Load(m1, x) == Load(m, x);
    }
  }

  // ------------------------------------------------------------------
  // The blocks of a history
  // ------------------------------------------------------------------

  /** The calls of a history, without the stores between them. */
  function Calls(acts: seq<Action>): seq<Call> {
    if acts == [] then []
    else if acts[0].Do? then [acts[0].call] + Calls(acts[1..])
    else Calls(acts[1..])
  }

  /** Where what lies below the heap lies clear of it, it decides once and for all. */
  lemma QuietDecides(start: uint32, w: World, call: Call, z: Setting)
    requires Kept(start, w) && Clear(start, PrevHeader(w.mem, start))
    ensures NextBlocks(start, w, call, z) ==
            Next(start, w.blocks, call, z.repaired, QuietBelow(w.mem, start, z.readable))
  {
    if w.blocks[0].used {
      assert w.blocks[..0] == [];
      LastSeenRange(start, w.blocks, 0);
      LinkedWrites(w.mem, start, w.blocks, 0, start);
      QuietFirst(w.mem, Linked(w.mem, start, w.blocks, 0), start, w.blocks, z.readable);
    }
  }

  /** So memory then follows the run of the calls over the blocks. */
  lemma {:induction false} HistoryRun(start: uint32, w: World, acts: seq<Action>, z: Setting, quiet: bool)
    requires Kept(start, w) && AllMayAct(start, w, acts, z)
    requires Clear(start, PrevHeader(w.mem, start)) && quiet == QuietBelow(w.mem, start, z.readable)
    ensures Run(start, w.blocks, Calls(acts), z.repaired, quiet) == Some(After(start, w, acts, z).blocks)
    decreases |acts|
  {
    if acts != [] {
      var w1 := Act(start, w, acts[0], z);
      ActKept(start, w, acts[0], z);
      QuietStays(w.mem, w1.mem, start, z.readable);
      HistoryRun(start, w1, acts[1..], z, quiet);
      if acts[0].Do? {
        QuietDecides(start, w, acts[0].call, z);
      }
      FirstCall(start, w, w1, acts, z, quiet);
    }
  }

  lemma FirstCall(start: uint32, w: World, w1: World, acts: seq<Action>, z: Setting, quiet: bool)
    requires Settled(start, w.blocks) && acts != [] && w1 == Act(start, w, acts[0], z) && Settled(start, w1.blocks)
    requires acts[0].Do? ==> Next(start, w.blocks, acts[0].call, z.repaired, quiet) == Some(w1.blocks)
    ensures Run(start, w.blocks, Calls(acts), z.repaired, quiet) ==
            Run(start, w1.blocks, Calls(acts[1..]), z.repaired, quiet)
  {
    match acts[0]
    case Do(call) =>
      NextSettled(start, w.blocks, call, z.repaired, quiet);
      assert Calls(acts)[0] == call && Calls(acts)[1..] == Calls(acts[1..]);
    case Store(_, _) =>
  }

  /** The calls the design allows, and stores to live payloads. */
  ghost predicate AllowedAct(start: uint32, w: World, act: Action, z: Setting) {
    match act
    case Do(call) => Allowed(start, w.blocks, call, z.repaired)
    case Store(x, _) => InLive(start, w.blocks, x)
  }

  ghost predicate AllAllowedActs(start: uint32, w: World, acts: seq<Action>, z: Setting)
    requires Settled(start, w.blocks)
    decreases |acts|
  {
    acts == [] || (
      && AllowedAct(start, w, acts[0], z)
      && (ActSettled(start, w, acts[0], z);
          AllAllowedActs(start, Act(start, w, acts[0], z), acts[1..], z)))
  }

  /** While the first block is free, allowed calls are sound and keep it so, whatever lies below the heap. */
  lemma AllowedMayAct(start: uint32, w: World, act: Action, z: Setting, quiet: bool)
    requires Kept(start, w) && HeadFree(w.blocks) && AllowedAct(start, w, act, z)
    ensures MayAct(start, w, act, z)
    ensures var bs' := Act(start, w, act, z).blocks;
            && bs' != [] && HeadFree(bs')
            && (act.Do? ==> Next(start, w.blocks, act.call, z.repaired, quiet) == Some(bs'))
  {
    match act
    case Do(call) =>
      AllowedStep(start, w.blocks, call, z.repaired, QuietNow(w.mem, start, w.blocks, z.readable));
      AllowedStep(start, w.blocks, call, z.repaired, quiet);
    case Store(_, _) =>
  }

  /** A history of allowed calls is one of sound calls, and follows the run of its calls. */
  lemma {:induction false} AllowedHistory(start: uint32, w: World, acts: seq<Action>, z: Setting, quiet: bool)
    requires Kept(start, w) && HeadFree(w.blocks) && AllAllowedActs(start, w, acts, z)
    ensures AllMayAct(start, w, acts, z)
    ensures var w' := After(start, w, acts, z);
            && w'.blocks != [] && HeadFree(w'.blocks)
            && Run(start, w.blocks, Calls(acts), z.repaired, quiet) == Some(w'.blocks)
    decreases |acts|
  {
    if acts != [] {
      var w1 := Act(start, w, acts[0], z);
      AllowedMayAct(start, w, acts[0], z, quiet);
      ActKept(start, w, acts[0], z);
      AllowedHistory(start, w1, acts[1..], z, quiet);
      FirstCall(start, w, w1, acts, z, quiet);
    }
  }

  // ------------------------------------------------------------------
  // From heap_init
  // ------------------------------------------------------------------

  /** The world `heap_init` makes, in any memory with a zero word where the heap's end is to be. */
  function InitialWorld(m: Memory, start: uint32): World {
    World(InitMemory(m, start), Initial(), map[])
  }

  lemma InitialKept(m: Memory, start: uint32)
    requires Place(start) && Load(m, start + HEAP_MAX_SIZE + OVERHEAD) == 0
    ensures Kept(start, InitialWorld(m, start)) && KeepsOutside(m, InitMemory(m, start), start)
  {
    InitFit(m, start);
    InitialSettled(start);
  }

  /** Every history of sound calls and stores from `heap_init`. */
  lemma HistoryFromInit(m: Memory, start: uint32, acts: seq<Action>, z: Setting)
    requires Place(start) && Load(m, start + HEAP_MAX_SIZE + OVERHEAD) == 0
    requires Settled(start, Initial()) && AllMayAct(start, InitialWorld(m, start), acts, z)
    ensures var w := After(start, InitialWorld(m, start), acts, z);
            && Heap(w.mem, start, w.blocks)
            && (forall x :: x in w.written ==> InLive(start, w.blocks, x) && Load(w.mem, x) == w.written[x])
            && KeepsOutside(m, w.mem, start)
            && (Clear(start, PrevHeader(m, start)) ==>
                  Run(start, Initial(), Calls(acts), z.repaired, QuietBelow(m, start, z.readable)) == Some(w.blocks))
  {
    var w0 := InitialWorld(m, start);
    InitialKept(m, start);
    HistoryKept(start, w0, acts, z);
    OutsideTwice(m, w0.mem, After(start, w0, acts, z).mem, start);
    if Clear(start, PrevHeader(m, start)) {
      QuietStays(m, w0.mem, start, z.readable);
      HistoryRun(start, w0, acts, z, QuietBelow(m, start, z.readable));
    }
  }

  /** Every history of the calls the design allows from `heap_init`, whatever lies below the heap. */
  lemma AllowedFromInit(m: Memory, start: uint32, acts: seq<Action>, z: Setting, quiet: bool)
    requires Place(start) && Load(m, start + HEAP_MAX_SIZE + OVERHEAD) == 0
    requires Settled(start, Initial()) && AllAllowedActs(start, InitialWorld(m, start), acts, z)
    ensures AllMayAct(start, InitialWorld(m, start), acts, z)
    ensures Run(start, Initial(), Calls(acts), z.repaired, quiet) ==
            Some(After(start, InitialWorld(m, start), acts, z).blocks)
  {
    InitialKept(m, start);
    AllowedHistory(start, InitialWorld(m, start), acts, z, quiet);
  }

  // ------------------------------------------------------------------
  // The end of a history
  // ------------------------------------------------------------------

  /**
   * Where the abstract call has no blocks, memory has no heap; or the first block was released and merged with what the
   * code took for a free block below the heap.
   */
  lemma LostInMemory(start: uint32, w: World, call: Call, repaired: bool, quiet: bool)
    requires Kept(start, w) && quiet == QuietRelease(w.mem, start, w.blocks)
    requires Next(start, w.blocks, call, repaired, quiet) == None
    requires call.Free? ==> LiveIndex(start, w.blocks, call.ptr) >= 0
    ensures var m' := CallMemory(w.mem, start, w.blocks, call, repaired);
            if call.Free? && LiveIndex(start, w.blocks, call.ptr) == 0 && !quiet then
              PlainBelow(w.mem, start, repaired) ==> !KeepsOutside(w.mem, m', start)
            else
              NoHeap(m', start)
  {
    match call
    case Malloc(size) => MallocFit(w.mem, start, w.blocks, size, repaired, quiet);
    case Free(ptr) => ReleaseFit(w.mem, start, w.blocks, LiveIndex(start, w.blocks, ptr), repaired, quiet);
  }

  function Releases(ptrs: seq<uint32>): (r: seq<Action>)
    ensures |r| == |ptrs|
  {
    if ptrs == [] then [] else [Do(Free(ptrs[0]))] + Releases(ptrs[1..])
  }

  lemma {:induction false} CallsOfReleases(ptrs: seq<uint32>)
    ensures Calls(Releases(ptrs)) == Frees(ptrs)
  {
    if ptrs != [] {
      CallsOfReleases(ptrs[1..]);
      assert Releases(ptrs)[1..] == Releases(ptrs[1..]);
    }
  }

  lemma {:induction false} MayReleaseAll(start: uint32, w: World, ptrs: seq<uint32>, z: Setting)
    requires Kept(start, w) && HeadFree(w.blocks) && ListsLive(start, w.blocks, ptrs) && z.repaired
    ensures AllAllowedActs(start, w, Releases(ptrs), z)
    decreases |ptrs|
  {
    if ptrs != [] {
      var p := ptrs[0];
      assert LivePtr(start, w.blocks, p);
      var s :| IsLive(start, w.blocks, p, s);
      var j := LiveIsBlock(start, w.blocks, p, s);
      LiveRange(start, w.blocks, p, s);
      FreeOne(start, w.blocks, p, s, QuietNow(w.mem, start, w.blocks, z.readable));
      AllowedMayAct(start, w, Do(Free(p)), z, false);
      var w' := Act(start, w, Do(Free(p)), z);
      ActKept(start, w, Do(Free(p)), z);
      ListsRest(start, w.blocks, w'.blocks, ptrs);
      MayReleaseAll(start, w', ptrs[1..], z);
      assert Releases(ptrs)[0] == Do(Free(p)) && Releases(ptrs)[1..] == Releases(ptrs[1..]);
    }
  }

  /**
   * In the repaired form, releasing every live pointer leaves in memory the heap `heap_init` made, and nothing held.
   */
  lemma ReleaseAll(start: uint32, w: World, ptrs: seq<uint32>, z: Setting)
    requires Kept(start, w) && HeadFree(w.blocks) && ListsLive(start, w.blocks, ptrs) && z.repaired
    ensures var w' := After(start, w, Releases(ptrs), z);
            Heap(w'.mem, start, Initial()) && w'.written == map[] && KeepsOutside(w.mem, w'.mem, start)
  {
    MayReleaseAll(start, w, ptrs, z);
    AllowedHistory(start, w, Releases(ptrs), z, false);
    HistoryKept(start, w, Releases(ptrs), z);
    CallsOfReleases(ptrs);
    FreeAll(start, w.blocks, ptrs, false);
    var w' := After(start, w, Releases(ptrs), z);
    forall x
      ensures x !in w'.written
    {
    }
  }
}
