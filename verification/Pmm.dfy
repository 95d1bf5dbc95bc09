/** The physical memory manager: a bitmap of 4 KB frames, kernel/pmm.c. */
module Pmm {
  import opened Words

  const FRAME_SIZE := 4096
  const BITMAP_WORDS := 4096
  const BITMAP_FRAMES := 131072
  const NO_FRAMES_AVAIL: uint32 := 0xFFFF_FFFF

  // ------------------------------------------------------------------
  // What the bitmap stands for
  // ------------------------------------------------------------------

  /**
   * The managed region (its first physical page and its length in frames), the set of frames in use, numbered
   * from the start of the region, and the counter the code keeps beside the bitmap.
   */
  datatype Frames = Frames(base: Frame, max: nat, used: set<nat>, count: uint32)

  /** Frames the scan can reach: only whole 32-frame words are visited. */
  function Scanned(max: nat): nat {
    max / 32 * 32
  }

  /** The region fits below 4 GB and fits the bitmap; the counter is the number of used frames. */
  ghost predicate Consistent(s: Frames) {
    && s.max <= BITMAP_FRAMES
    && s.base + s.max <= PAGES
    && (forall f :: f in s.used ==> f < s.max)
    && s.count == |s.used|
  }

  /** Lowest frame at or after `from` that is not in use, or `limit` when there is none. */
  function FirstFree(used: set<nat>, from: nat, limit: nat): (r: nat)
    requires from <= limit
    ensures from <= r <= limit
    ensures forall f :: from <= f < r ==> f in used
    ensures r < limit ==> r !in used
    decreases limit - from
  {
    if from == limit || from !in used then from else FirstFree(used, from + 1, limit)
  }

  function Lowest(s: Frames): nat {
    FirstFree(s.used, 0, Scanned(s.max))
  }

  predicate Available(s: Frames) {
    Lowest(s) < Scanned(s.max)
  }

  function Start(s: Frames): uint32 {
    s.base * FRAME_SIZE
  }

  /** The frame number `pmm_dealloc_frame` computes, with its wrapping subtraction. */
  function FrameOf(s: Frames, addr: uint32): nat {
    Sub(addr, Start(s)) / FRAME_SIZE
  }

  function MarkUsed(s: Frames, frame: uint32): Frames {
    if frame >= s.max then s else s.(used := s.used + {frame}, count := Add(s.count, 1))
  }

  function MarkFree(s: Frames, frame: uint32): Frames {
    if frame >= s.max then s else s.(used := s.used - {frame}, count := Sub(s.count, 1))
  }

  function FirstFreeNumber(s: Frames): uint32
    requires s.max <= BITMAP_FRAMES
  {
    if Available(s) then Lowest(s) else NO_FRAMES_AVAIL
  }

  function Alloc(s: Frames): Frames
    requires s.max <= BITMAP_FRAMES
  {
    MarkUsed(s, FirstFreeNumber(s))
  }

  /** The physical page handed out: the lowest free one, or on exhaustion the page before the region. */
  function Allocated(s: Frames): Frame
    requires s.max <= BITMAP_FRAMES
  {
    if Available(s) then
      if s.base + Lowest(s) < PAGES then s.base + Lowest(s) else s.base + Lowest(s) - PAGES
    else
      if s.base > 0 then s.base - 1 else PAGES - 1
  }

  function AllocAddress(s: Frames): uint32
    requires s.max <= BITMAP_FRAMES
  {
    Allocated(s) * FRAME_SIZE
  }

  /** The arithmetic of `pmm_alloc_frame`: a 32-bit product added to the start of the region. */
  function CodeAddress(start: uint32, frame: uint32): uint32 {
    Add(start, frame * FRAME_SIZE % 0x1_0000_0000)
  }

  lemma CodeComputesAllocated(s: Frames)
    requires s.max <= BITMAP_FRAMES
    ensures CodeAddress(Start(s), FirstFreeNumber(s)) == AllocAddress(s)
  {
    if Available(s) {
      assert Lowest(s) * FRAME_SIZE < TWO32;
    } else {
      DivModUnique(NO_FRAMES_AVAIL * FRAME_SIZE, TWO32, 4095, TWO32 - 4096);
    }
  }

  function Dealloc(s: Frames, addr: uint32): Frames {
    MarkFree(s, FrameOf(s, addr))
  }

  // ------------------------------------------------------------------
  // Bits of the bitmap
  // ------------------------------------------------------------------

  type Bitmap = w: seq<uint32> | |w| == BITMAP_WORDS witness seq(BITMAP_WORDS, _ => 0)

  predicate Marked(words: Bitmap, frame: nat)
    requires frame < BITMAP_FRAMES
  {
    Bit(words[frame / 32], frame % 32)
  }

  /** The frames among the first `n` whose bit is set. */
  ghost function MarkedBelow(words: Bitmap, n: nat): set<nat>
    requires n <= BITMAP_FRAMES
  {
    set f: nat | f < n && Marked(words, f)
  }

  function SetBit(word: uint32, bit: nat): uint32
    requires bit < 32
  {
    SetBitFits(word, bit);
    Or(word, Pow2(bit))
  }

  lemma SetBitFits(word: uint32, bit: nat)
    requires bit < 32
    ensures Or(word, Pow2(bit)) < TWO32
  {
    TwoTo32();
    Pow2Monotone(bit + 1, 32);
    OrBounded(word, Pow2(bit), 32);
  }

  function ClearBit(word: uint32, bit: nat): uint32
    requires bit < 32
  {
    AndBounded(word, Not(Pow2(bit), 32));
    And(word, Not(Pow2(bit), 32))
  }

  lemma SetBitMarks(words: Bitmap, frame: nat, f: nat)
    requires frame < BITMAP_FRAMES && f < BITMAP_FRAMES
    ensures Marked(words[frame / 32 := SetBit(words[frame / 32], frame % 32)], f) <==> f == frame || Marked(words, f)
  {
    if f / 32 == frame / 32 {
      BitOfOr(words[frame / 32], Pow2(frame % 32), f % 32);
      BitOfPow2(frame % 32, f % 32);
    }
  }

  lemma ClearBitUnmarks(words: Bitmap, frame: nat, f: nat)
    requires frame < BITMAP_FRAMES && f < BITMAP_FRAMES
    ensures Marked(words[frame / 32 := ClearBit(words[frame / 32], frame % 32)], f) <==> f != frame && Marked(words, f)
  {
    if f / 32 == frame / 32 {
      BitOfAnd(words[frame / 32], Not(Pow2(frame % 32), 32), f % 32);
      BitOfNot(Pow2(frame % 32), 32, f % 32);
      BitOfPow2(frame % 32, f % 32);
    }
  }

  // ------------------------------------------------------------------
  // Allocation and release
  // ------------------------------------------------------------------

  lemma FrameOfAddress(s: Frames, frame: nat)
    requires Consistent(s) && frame < s.max
    ensures FrameOf(s, (s.base + frame) * FRAME_SIZE) == frame
  {
  }

  /** A successful allocation hands out the lowest frame that was not in use, and only that frame changes. */
  lemma AllocTakesLowest(s: Frames)
    requires Consistent(s) && Available(s)
    ensures Consistent(Alloc(s))
    ensures Lowest(s) !in s.used && forall f: nat :: f < Lowest(s) ==> f in s.used
    ensures Alloc(s) == s.(used := s.used + {Lowest(s)}, count := s.count + 1)
    ensures Allocated(s) == s.base + Lowest(s) < s.base + s.max
  {
    CountBelow(s.used, s.max);
  }

  lemma {:induction false} CountBelow(used: set<nat>, max: nat)
    requires forall f :: f in used ==> f < max
    ensures |used| <= max
  {
    if max > 0 {
      CountBelow(used - {max - 1}, max - 1);
    } else {
      assert used == {};
    }
  }

  /**
   * On exhaustion nothing changes, yet an address is still returned: the one just below the managed region,
   * which is the null pointer exactly when the region starts at the second frame of memory.
   */
  lemma AllocExhausted(s: Frames)
    requires Consistent(s) && !Available(s)
    ensures Alloc(s) == s
    ensures AllocAddress(s) == Sub(Start(s), FRAME_SIZE)
    ensures AllocAddress(s) == 0 <==> s.base == 1
    ensures Dealloc(s, AllocAddress(s)) == s
  {
    DeallocOutside(s, AllocAddress(s));
  }

  /** Addresses outside the managed frames are ignored, those below the region because the subtraction wraps. */
  lemma DeallocOutside(s: Frames, addr: uint32)
    requires Consistent(s)
    requires addr < Start(s) || Start(s) + s.max * FRAME_SIZE <= addr
    ensures Dealloc(s, addr) == s
  {
  }

  lemma AllocThenDealloc(s: Frames)
    requires Consistent(s) && Available(s)
    ensures Dealloc(Alloc(s), AllocAddress(s)) == s
  {
    AllocTakesLowest(s);
    FrameOfAddress(s, Lowest(s));
    assert s.used + {Lowest(s)} - {Lowest(s)} == s.used;
  }

  /**
   * Releasing any address within a managed frame takes that frame, and no other, out of those in use, and one off the
   * counter, whether or not it was in use.
   */
  lemma DeallocReleases(s: Frames, frame: nat, addr: uint32)
    requires s.base + s.max <= PAGES && frame < s.max
    requires (s.base + frame) * FRAME_SIZE <= addr < (s.base + frame + 1) * FRAME_SIZE
    ensures var r := Dealloc(s, addr);
            && r.base == s.base && r.max == s.max && r.count == Sub(s.count, 1)
            && (forall f :: f in r.used <==> f in s.used && f != frame)
            && (Consistent(s) && frame in s.used ==> Consistent(r) && r.count == s.count - 1)
  {
    assert FrameOf(s, addr) == frame;
    if Consistent(s) && frame in s.used {
      DeallocKeepsCount(s, addr);
    }
  }

  /** A mark puts that frame, and no other, among those in use, and counts it whether or not it was one of them. */
  lemma MarkUsedMarks(s: Frames, frame: uint32)
    ensures var r := MarkUsed(s, frame);
            && r.base == s.base && r.max == s.max
            && (forall f :: f in r.used <==> f in s.used || (f == frame && frame < s.max))
            && r.count == if frame < s.max then Add(s.count, 1) else s.count
  {
  }

  /** The counter survives a release exactly when the frame released was in use (or is not managed at all). */
  lemma DeallocKeepsCount(s: Frames, addr: uint32)
    requires Consistent(s)
    ensures Consistent(Dealloc(s, addr)) <==> FrameOf(s, addr) >= s.max || FrameOf(s, addr) in s.used
  {
    var frame := FrameOf(s, addr);
    CountBelow(s.used, s.max);
    if frame < s.max && frame !in s.used {
      assert s.used - {frame} == s.used;
    }
  }

  /** A second mark of a used frame leaves the set alone and breaks the counter, so marks must be of free frames. */
  lemma MarkUsedKeepsCount(s: Frames, frame: uint32)
    requires Consistent(s)
    ensures Consistent(MarkUsed(s, frame)) <==> frame >= s.max || frame !in s.used
  {
    CountBelow(s.used, s.max);
    if frame in s.used {
      assert s.used + {frame} == s.used;
    }
  }

  datatype Op = Take | Give(addr: uint32)

  function Step(s: Frames, op: Op): Frames
    requires s.max <= BITMAP_FRAMES
  {
    match op
    case Take => Alloc(s)
    case Give(addr) => Dealloc(s, addr)
  }

  function Run(s: Frames, ops: seq<Op>): (r: Frames)
    requires s.max <= BITMAP_FRAMES
    ensures r.max == s.max && r.base == s.base
    decreases ops
  {
    if ops == [] then s else Run(Step(s, ops[0]), ops[1..])
  }

  /** Every release in the run is of a frame that is in use at that point, or of no managed frame. */
  ghost predicate Fair(s: Frames, ops: seq<Op>)
    requires s.max <= BITMAP_FRAMES
    decreases ops
  {
    ops == [] || (
      && (ops[0].Give? ==> FrameOf(s, ops[0].addr) >= s.max || FrameOf(s, ops[0].addr) in s.used)
      && Fair(Step(s, ops[0]), ops[1..]))
  }

  /** Over every such run the counter is the number of frames in use, and no frame past the last whole word is taken. */
  lemma {:induction false} RunKeepsConsistent(s: Frames, ops: seq<Op>)
    requires Consistent(s) && Fair(s, ops)
    requires forall f :: f in s.used ==> f < Scanned(s.max)
    ensures Consistent(Run(s, ops))
    ensures forall f :: f in Run(s, ops).used ==> f < Scanned(s.max)
    decreases ops
  {
    if ops != [] {
      match ops[0] {
        case Take =>
          if Available(s) {
            AllocTakesLowest(s);
          } else {
            AllocExhausted(s);
          }
        case Give(addr) =>
          DeallocKeepsCount(s, addr);
      }
      RunKeepsConsistent(Step(s, ops[0]), ops[1..]);
    }
  }

  /** What a caller sees of a call: the frame of the address handed out, or the one given back. */
  datatype Change = Took(frame: nat) | Gave(frame: nat) | Nothing

  function Seen(s: Frames, op: Op): Change
    requires s.max <= BITMAP_FRAMES
  {
    match op
    case Take => if Available(s) then Took(FrameOf(s, AllocAddress(s))) else Nothing
    case Give(addr) => if FrameOf(s, addr) < s.max then Gave(FrameOf(s, addr)) else Nothing
  }

  /** What is seen over a run. */
  function Log(s: Frames, ops: seq<Op>): (r: seq<Change>)
    requires s.max <= BITMAP_FRAMES
    ensures |r| == |ops|
    decreases ops
  {
    if ops == [] then [] else [Seen(s, ops[0])] + Log(Step(s, ops[0]), ops[1..])
  }

  /** By the log the frame is in use: taken and not given back since, or in use at the start and never given back. */
  ghost predicate InUse(used: set<nat>, log: seq<Change>, f: nat) {
    || (f in used && Gave(f) !in log)
    || exists k :: 0 <= k < |log| && log[k] == Took(f) && Gave(f) !in log[k..]
  }

  /** One call changes what is in use by what is seen of it. */
  lemma StepSeen(s: Frames, op: Op, f: nat)
    requires Consistent(s) && (op.Give? ==> FrameOf(s, op.addr) >= s.max || FrameOf(s, op.addr) in s.used)
    ensures Consistent(Step(s, op))
    ensures f in Step(s, op).used <==> Seen(s, op) == Took(f) || (f in s.used && Seen(s, op) != Gave(f))
  {
    match op
    case Take =>
      if Available(s) {
        AllocTakesLowest(s);
        FrameOfAddress(s, Lowest(s));
      } else {
        AllocExhausted(s);
      }
    case Give(addr) =>
      DeallocKeepsCount(s, addr);
  }

  lemma InUseFirst(used: set<nat>, change: Change, rest: seq<Change>, used': set<nat>, f: nat)
    requires f in used' <==> change == Took(f) || (f in used && change != Gave(f))
    ensures InUse(used, [change] + rest, f) <==> InUse(used', rest, f)
  {
    var log := [change] + rest;
    assert Gave(f) in log <==> change == Gave(f) || Gave(f) in rest;
    assert log[0..] == log;
    forall k | 0 <= k < |rest|
      ensures log[k + 1] == rest[k] && log[k + 1..] == rest[k..]
    {
    }
    if k :| 0 <= k < |rest| && rest[k] == Took(f) && Gave(f) !in rest[k..] {
      assert log[k + 1] == Took(f);
    }
    if k :| 0 <= k < |log| && log[k] == Took(f) && Gave(f) !in log[k..] {
      if k > 0 {
        assert log[k] == rest[k - 1] && log[k..] == rest[k - 1..];
      }
    }
  }

  /** Over every run the frames in use are those held at the start or since taken, less those given back. */
  lemma {:induction false} RunBalances(s: Frames, ops: seq<Op>, f: nat)
    requires Consistent(s) && Fair(s, ops)
    ensures f in Run(s, ops).used <==> InUse(s.used, Log(s, ops), f)
    decreases ops
  {
    if ops != [] {
      StepSeen(s, ops[0], f);
      RunBalances(Step(s, ops[0]), ops[1..], f);
      InUseFirst(s.used, Seen(s, ops[0]), Log(Step(s, ops[0]), ops[1..]), Step(s, ops[0]).used, f);
    }
  }

  /** Rounding up to a page in 32-bit arithmetic. */
  function Align4K(address: uint32): uint32 {
    var padded := Add(address, 4096 - 1);
    padded - padded % 4096
  }

  /** The code writes it `(address + 4095) & ~4095`. */
  lemma Align4KIsMasking(address: uint32, mask: uint32)
    requires mask == 4095
    ensures And(Add(address, mask), Not(mask, 32)) == Align4K(address)
  {
    TwoTo32();
    TwoTo12();
    AndNotLowBits(Add(address, mask), 12, 32, mask);
  }

  /** Rounding up gives the least multiple of 4096 not below the address, except in the last page, which wraps to 0. */
  lemma Align4KRoundsUp(address: uint32)
    ensures Align4K(address) % 4096 == 0
    ensures address <= 0xFFFF_F000 ==> address <= Align4K(address) < address + 4096
    ensures address > 0xFFFF_F000 ==> Align4K(address) == 0
  {
  }

  // ------------------------------------------------------------------
  // The allocator itself
  // ------------------------------------------------------------------

  class FrameAllocator {
    const bitmap: array<uint32>
    var memoryStart: uint32
    var memoryEnd: uint32
    var framesMax: uint32
    var framesUsed: uint32
    ghost var used: set<nat>  // the managed frames whose bit is set

    ghost predicate Valid()
      reads this, bitmap
    {
      && bitmap.Length == BITMAP_WORDS
      && memoryStart % FRAME_SIZE == 0
      && framesMax <= BITMAP_FRAMES
      && forall f: nat {:trigger f in used} :: f in used <==> f < framesMax && Marked(bitmap[..], f)
    }

    /** The value this allocator stands for. */
    ghost function Abs(): (s: Frames)
      reads this
    {
      Frames(memoryStart / FRAME_SIZE, framesMax, used, framesUsed)
    }

    /** The allocator as the loader leaves it: zeroed static storage. */
    constructor ()
      ensures Valid() && fresh(bitmap)
      ensures Abs() == Frames(0, 0, {}, 0)
      ensures forall i :: 0 <= i < bitmap.Length ==> bitmap[i] == 0
    {
      bitmap := new uint32[BITMAP_WORDS](_ => 0);
      memoryStart, memoryEnd, framesMax, framesUsed := 0, 0, 0, 0;
      used := {};
    }

    /** The frames of the new range that are marked already, none when the bitmap is clear as at boot, are in use. */
    method SetMemoryRange(start: uint32, end: uint32)
      requires Valid()
      requires start % FRAME_SIZE == 0 && Sub(end, start) / FRAME_SIZE <= BITMAP_FRAMES
      modifies this
      ensures Valid()
      ensures var n := Sub(end, start) / FRAME_SIZE;
              Abs() == Frames(start / FRAME_SIZE, n, MarkedBelow(bitmap[..], n), old(framesUsed))
      ensures memoryStart == start && memoryEnd == end
      ensures (forall i :: 0 <= i < bitmap.Length ==> bitmap[i] == 0) ==> used == {}
    {
      memoryStart := start;
      memoryEnd := end;
      framesMax := Sub(end, start) / FRAME_SIZE;
      used := MarkedBelow(bitmap[..], framesMax);
      forall f: nat | f < framesMax
        ensures bitmap[f / 32] == 0 ==> !Marked(bitmap[..], f)
      {
        BitOfZero(f % 32);
      }
    }

    method SetFrameUsed(frame: uint32)
      requires Valid()
      modifies this`framesUsed, this`used, bitmap
      ensures Valid()
      ensures Abs() == MarkUsed(old(Abs()), frame)
    {
      if frame >= framesMax {
        return;
      }
      var index := frame / 32;
      var bit := frame % 32;
      ghost var before := bitmap[..];
      bitmap[index] := SetBit(bitmap[index], bit);
      framesUsed := Add(framesUsed, 1);
      used := used + {frame};
      assert bitmap[..] == before[index := SetBit(before[index], bit)];
      forall f: nat
        ensures f in used <==> f < framesMax && Marked(bitmap[..], f)
      {
        if f < framesMax {
          SetBitMarks(before, frame, f);
        }
      }
    }

    method SetFrameFree(frame: uint32)
      requires Valid()
      modifies this`framesUsed, this`used, bitmap
      ensures Valid()
      ensures Abs() == MarkFree(old(Abs()), frame)
    {
      if frame >= framesMax {
        return;
      }
      var index := frame / 32;
      var bit := frame % 32;
      ghost var before := bitmap[..];
      bitmap[index] := ClearBit(bitmap[index], bit);
      framesUsed := Sub(framesUsed, 1);
      used := used - {frame};
      assert bitmap[..] == before[index := ClearBit(before[index], bit)];
      forall f: nat
        ensures f in used <==> f < framesMax && Marked(bitmap[..], f)
      {
        if f < framesMax {
          ClearBitUnmarks(before, frame, f);
        }
      }
    }

    method GetFirstFreeFrame() returns (frame: uint32)
      requires Valid()
      ensures frame == FirstFreeNumber(Abs())
    {
      for i := 0 to framesMax / 32
        invariant forall f: nat :: f < i * 32 ==> f in used
      {
        for bit := 0 to 32
          invariant forall f: nat :: f < i * 32 + bit ==> f in used
        {
          var mask := Pow2(bit);
          AndPow2Tests(bitmap[i], bit);
          assert (i * 32 + bit) / 32 == i && (i * 32 + bit) % 32 == bit;
          assert Marked(bitmap[..], i * 32 + bit) <==> And(bitmap[i], mask) != 0;
          if And(bitmap[i], mask) == 0 {
            frame := i * 4 * 8 + bit;
            assert frame !in used;
            return;
          }
          assert i * 32 + bit in used;
        }
      }
      return NO_FRAMES_AVAIL;
    }

    method AllocFrame() returns (addr: uint32)
      requires Valid()
      modifies this`framesUsed, this`used, bitmap
      ensures Valid()
      ensures Abs() == Alloc(old(Abs()))
      ensures addr == AllocAddress(old(Abs()))
    {
      var frame := GetFirstFreeFrame();
      SetFrameUsed(frame);
      CodeComputesAllocated(old(Abs()));
      addr := CodeAddress(memoryStart, frame);
    }

    /** Releases the frame containing `addr`. */
    method DeallocFrame(addr: uint32)
      requires Valid()
      modifies this`framesUsed, this`used, bitmap
      ensures Valid()
      ensures Abs() == Dealloc(old(Abs()), addr)
    {
      var frame := Sub(addr, memoryStart) / FRAME_SIZE;
      SetFrameFree(frame);
    }
  }
}
