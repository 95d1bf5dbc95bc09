/** Where the stacks of tasks come from: the task table and the kernel heap together, kernel/task.c, kernel/kheap.c. */
module Stacks {
  import opened Words
  import opened HeapBlocks
  import opened HeapMemory
  import opened HeapOps
  import opened HeapRelease
  import opened HeapRuns
  import opened HeapLosses
  import opened TaskLayout
  import I = Isolation
  import M = Multitasking
  import S = Scheduler

  /** The heap has handed out these stacks. */
  ghost predicate HandedOut(start: int, bs: seq<Block>, stacks: set<uint32>) {
    forall x :: x in stacks ==> IsLive(start, bs, x, TASK_STACK_SIZE)
  }

  /** The stack at `x` overlaps none of these, and is none of them. */
  predicate ClearOf(x: int, stacks: set<uint32>) {
    forall y :: y in stacks ==> x + TASK_STACK_SIZE + OVERHEAD <= y || y as int + TASK_STACK_SIZE + OVERHEAD <= x
  }

  lemma StacksApart(start: int, bs: seq<Block>, stacks: set<uint32>, x: uint32)
    requires HandedOut(start, bs, stacks) && x in stacks
    ensures ClearOf(x, stacks - {x})
  {
    forall y | y in stacks - {x}
      ensures x as int + TASK_STACK_SIZE + OVERHEAD <= y || y as int + TASK_STACK_SIZE + OVERHEAD <= x
    {
      if x < y {
        LiveDisjoint(start, bs, x, TASK_STACK_SIZE, y, TASK_STACK_SIZE);
      } else {
        LiveDisjoint(start, bs, y, TASK_STACK_SIZE, x, TASK_STACK_SIZE);
      }
    }
  }

  // ------------------------------------------------------------------
  // Calls
  // ------------------------------------------------------------------

  /** The heap serves a request for a stack, with a heap left. */
  predicate Serves(start: int, bs: seq<Block>) {
    Best(bs, TASK_STACK_SIZE) >= 0 && AllocSound(start, bs, Best(bs, TASK_STACK_SIZE), TASK_STACK_SIZE)
  }

  /** The pointer `kmalloc` returns for it. */
  function StackOf(start: int, bs: seq<Block>): (x: uint32)
    requires Settled(start, bs) && Serves(start, bs)
  {
    var k := Best(bs, TASK_STACK_SIZE);
    AddrBounds(start, bs, k);
    Addr(start, bs, k) + bs[k].size - TASK_STACK_SIZE + HEADER
  }

  /** One more live payload. */
  lemma OneMoreStack(start: int, bs: seq<Block>, bs': seq<Block>, stacks: set<uint32>, x: uint32)
    requires HandedOut(start, bs, stacks) && AddsLive(start, bs, bs', x, TASK_STACK_SIZE)
    ensures HandedOut(start, bs', stacks + {x}) && x !in stacks && ClearOf(x, stacks)
    ensures IsLive(start, bs', x, TASK_STACK_SIZE)
  {
    assert IsLive(start, bs', x, TASK_STACK_SIZE);
    StacksApart(start, bs', stacks + {x}, x);
    assert stacks + {x} - {x} == stacks;
  }

  /** A stack the heap gives is clear of all that it has given and not got back. */
  lemma NewStack(start: uint32, bs: seq<Block>, stacks: set<uint32>, repaired: bool, quiet: bool, x: uint32)
    requires Settled(start, bs) && Serves(start, bs) && HandedOut(start, bs, stacks) && x == StackOf(start, bs)
    ensures ClearOf(x, stacks) && x !in stacks
    ensures start < x && x as int + TASK_STACK_SIZE < start + HEAP_MAX_SIZE + OVERHEAD
    ensures var n := Next(start, bs, Malloc(TASK_STACK_SIZE), repaired, quiet);
            n.Some? && Settled(start, n.value) && HandedOut(start, n.value, stacks + {x})
  {
    var k := Best(bs, TASK_STACK_SIZE);
    AddrBounds(start, bs, k);
    AllocatedLive(start, bs, k, TASK_STACK_SIZE);
    var bs' := Allocated(start, bs, k, TASK_STACK_SIZE);
    assert Next(start, bs, Malloc(TASK_STACK_SIZE), repaired, quiet) == Some(bs');
    OneMoreStack(start, bs, bs', stacks, x);
    LiveRange(start, bs', x, TASK_STACK_SIZE);
  }

  /** Any other call keeps the stacks, unless it gives one back. */
  lemma CallKeeps(start: uint32, bs: seq<Block>, stacks: set<uint32>, call: Call, repaired: bool, quiet: bool,
                  bs': seq<Block>)
    requires Settled(start, bs) && HandedOut(start, bs, stacks)
    requires Next(start, bs, call, repaired, quiet) == Some(bs')
    ensures Settled(start, bs')
    ensures HandedOut(start, bs', if call.Free? then stacks - {call.ptr} else stacks)
  {
    NextSettled(start, bs, call, repaired, quiet);
    match call
    case Malloc(size) =>
      var k := Best(bs, RoundUp4(size));
      if size != 0 && k >= 0 {
        AddrBounds(start, bs, k);
        RoundUp4Value(size);
        AllocatedLive(start, bs, k, RoundUp4(size));
      }
    case Free(ptr) =>
      if start <= ptr <= start + HEAP_MAX_SIZE + OVERHEAD {
        ReleasedLive(start, bs, LiveIndex(start, bs, ptr));
      }
  }

  // ------------------------------------------------------------------
  // The table and the heap
  // ------------------------------------------------------------------

  datatype World = World(table: S.Sched, blocks: seq<Block>)

  /** What happens: the scheduler's calls, and what others ask of the heap. */
  datatype Act =
    | Create(state: S.State, cr3: uint32)
    | Kill(id: uint32)
    | Exit
    | Schedule
    | Other(call: Call)

  /** What surrounds a run: the form of the code, and what lies below the heap. */
  datatype Setting = Setting(start: uint32, repaired: bool, quiet: bool)

  ghost predicate Sound(c: Setting, w: World) {
    S.Safe(w.table) && Settled(c.start, w.blocks) && HandedOut(c.start, w.blocks, w.table.stacks)
  }

  predicate Starts(state: S.State) {
    state == S.PAUSED || state == S.WAITING
  }

  function AfterCall(c: Setting, bs: seq<Block>, call: Call): (r: Option<seq<Block>>)
    requires Settled(c.start, bs)
    ensures r.Some? ==> Settled(c.start, r.value)
  {
    NextSettled(c.start, bs, call, c.repaired, c.quiet);
    Next(c.start, bs, call, c.repaired, c.quiet)
  }

  /** The stacks the purge loop of `task_schedule` gives back, up to slot `n`. */
  function FreeKilled(c: Setting, bs: seq<Block>, s: S.Sched, n: nat): (r: Option<seq<Block>>)
    requires Settled(c.start, bs) && S.Shaped(s) && n <= S.TASK_MAX
    ensures r.Some? ==> Settled(c.start, r.value)
  {
    if n == 0 then Some(bs)
    else
      match FreeKilled(c, bs, s, n - 1)
      case None => None
      case Some(b) =>
        if n > 1 && s.tasks[n - 1].state == S.KILLED then AfterCall(c, b, Free(s.tasks[n - 1].stackFrame)) else Some(b)
  }

  /** The calls leave a heap, a stack asked for is served, and nobody else gives a stack back. */
  ghost predicate MayAct(c: Setting, w: World, act: Act)
    requires Sound(c, w)
  {
    match act
    case Create(state, _) => Starts(state) ==> w.table.last < S.TASK_MAX && Serves(c.start, w.blocks)
    case Kill(_) => true
    case Exit => w.table.current != 0
    case Schedule => FreeKilled(c, w.blocks, S.Ticked(w.table), S.TASK_MAX).Some?
    case Other(call) =>
      AfterCall(c, w.blocks, call).Some? && (call.Free? ==> call.ptr !in w.table.stacks)
  }

  ghost function Step(c: Setting, w: World, act: Act): World
    requires Sound(c, w) && MayAct(c, w, act)
  {
    match act
    case Create(state, cr3) =>
      if Starts(state) then
        NewStack(c.start, w.blocks, w.table.stacks, c.repaired, c.quiet, StackOf(c.start, w.blocks));
        World(S.Create(w.table, state, StackOf(c.start, w.blocks), cr3),
              Next(c.start, w.blocks, Malloc(TASK_STACK_SIZE), c.repaired, c.quiet).value)
      else w
    case Kill(id) => w.(table := S.Kill(w.table, id))
    case Exit => w.(table := S.Exit(w.table))
    case Schedule =>
      S.ScheduleSafe(w.table);
      World(S.Schedule(w.table, 0), FreeKilled(c, w.blocks, S.Ticked(w.table), S.TASK_MAX).value)
    case Other(call) => w.(blocks := AfterCall(c, w.blocks, call).value)
  }

  /** As many stacks are given back as the purges take out of the table. */
  lemma {:induction false} PurgesGiveBack(c: Setting, bs: seq<Block>, s: S.Sched, n: nat)
    requires Settled(c.start, bs) && S.Consistent(s) && S.Owned(s) && HandedOut(c.start, bs, s.stacks)
    requires n <= S.TASK_MAX && FreeKilled(c, bs, s, n).Some?
    ensures HandedOut(c.start, FreeKilled(c, bs, s, n).value, S.PurgeBelow(s, n).stacks)
  {
    if n > 0 {
      PurgesGiveBack(c, bs, s, n - 1);
      var b, p := FreeKilled(c, bs, s, n - 1).value, S.PurgeBelow(s, n - 1);
      assert p.tasks[n - 1] == s.tasks[n - 1];
      if n > 1 && s.tasks[n - 1].state == S.KILLED {
        CallKeeps(c.start, b, p.stacks, Free(s.tasks[n - 1].stackFrame), c.repaired, c.quiet,
                  FreeKilled(c, bs, s, n).value);
      }
    }
  }

  lemma ScheduleKeeps(c: Setting, w: World)
    requires Sound(c, w) && MayAct(c, w, Schedule)
    ensures Sound(c, Step(c, w, Schedule))
  {
    S.ScheduleSafe(w.table);
    var t := S.Ticked(w.table);
    S.SameOwners(w.table, t);
    PurgesGiveBack(c, w.blocks, t, S.TASK_MAX);
    SwitchKeepsStacks(w.table, S.PurgeBelow(t, S.TASK_MAX));
  }

  lemma SwitchKeepsStacks(s: S.Sched, p: S.Sched)
    requires S.Safe(s) && p == S.PurgeBelow(S.Ticked(s), S.TASK_MAX)
    ensures S.CanSearch(s, 0) && S.Schedule(s, 0).stacks == p.stacks
  {
    S.ScheduleSafe(s);
  }

  lemma StepSound(c: Setting, w: World, act: Act)
    requires Sound(c, w) && MayAct(c, w, act)
    ensures Sound(c, Step(c, w, act))
  {
    match act
    case Create(state, cr3) =>
      if Starts(state) {
        var x := StackOf(c.start, w.blocks);
        NewStack(c.start, w.blocks, w.table.stacks, c.repaired, c.quiet, x);
        S.CreateSafe(w.table, state, x, cr3);
      }
    case Kill(id) => S.KillSafe(w.table, id);
    case Exit => S.ExitSafe(w.table);
    case Schedule => ScheduleKeeps(c, w);
    case Other(call) =>
      CallKeeps(c.start, w.blocks, w.table.stacks, call, c.repaired, c.quiet, AfterCall(c, w.blocks, call).value);
  }

  ghost predicate AllMayAct(c: Setting, w: World, acts: seq<Act>)
    requires Sound(c, w)
    decreases |acts|
  {
    acts == [] || (MayAct(c, w, acts[0]) && (StepSound(c, w, acts[0]); AllMayAct(c, Step(c, w, acts[0]), acts[1..])))
  }

  ghost function After(c: Setting, w: World, acts: seq<Act>): (r: World)
    requires Sound(c, w) && AllMayAct(c, w, acts)
    ensures Sound(c, r)
    decreases |acts|
  {
    if acts == [] then w else StepSound(c, w, acts[0]); After(c, Step(c, w, acts[0]), acts[1..])
  }

  lemma OwnersApart(c: Setting, w: World, i: int, j: int, x: uint32, y: uint32)
    requires Sound(c, w) && S.Owns(w.table, i) && S.Owns(w.table, j) && i != j
    requires x == w.table.tasks[i].stackFrame && y == w.table.tasks[j].stackFrame
    ensures IsLive(c.start, w.blocks, x, TASK_STACK_SIZE) && ClearOf(x, {y})
  {
    assert x in w.table.stacks && y in w.table.stacks - {x};
    StacksApart(c.start, w.blocks, w.table.stacks, x);
  }

  /** Over every run the tasks' stacks are payloads the heap has handed out, and no two of them overlap. */
  lemma RunKeepsStacks(c: Setting, w: World, acts: seq<Act>, r: World, i: int, j: int)
    requires Sound(c, w) && AllMayAct(c, w, acts) && r == After(c, w, acts)
    requires S.Owns(r.table, i) && S.Owns(r.table, j) && i != j
    ensures IsLive(c.start, r.blocks, r.table.tasks[i].stackFrame, TASK_STACK_SIZE)
    ensures var x, y := r.table.tasks[i].stackFrame as int, r.table.tasks[j].stackFrame as int;
            x + TASK_STACK_SIZE + OVERHEAD <= y || y + TASK_STACK_SIZE + OVERHEAD <= x
  {
    OwnersApart(c, r, i, j, r.table.tasks[i].stackFrame, r.table.tasks[j].stackFrame);
  }

  /** The heap has the stack at `x` back. */
  ghost predicate GivenBack(start: int, bs: seq<Block>, stacks: set<uint32>, x: uint32) {
    x !in stacks && forall z :: !IsLive(start, bs, x, z)
  }

  /** A release gives back the stack it is for, and none is handed out by it. */
  lemma ReleaseGivesBack(c: Setting, bs: seq<Block>, stacks: set<uint32>, x: uint32, y: uint32, bs': seq<Block>)
    requires Settled(c.start, bs) && AfterCall(c, bs, Free(y)) == Some(bs')
    requires if y == x then IsLive(c.start, bs, x, TASK_STACK_SIZE) else GivenBack(c.start, bs, stacks, x)
    ensures GivenBack(c.start, bs', stacks - {y}, x)
  {
    if y == x {
      LiveRange(c.start, bs, x, TASK_STACK_SIZE);
    }
    if c.start <= y <= c.start + HEAP_MAX_SIZE + OVERHEAD {
      ReleasedLive(c.start, bs, LiveIndex(c.start, bs, y));
    }
  }

  /** What one turn of the purge loop does to the table. */
  lemma PurgeTurn(s: S.Sched, n: nat, p: S.Sched)
    requires S.Shaped(s) && 1 < n <= S.TASK_MAX && p == S.PurgeBelow(s, n - 1)
    ensures p.tasks[n - 1] == s.tasks[n - 1]
    ensures S.PurgeBelow(s, n).stacks ==
            if s.tasks[n - 1].state == S.KILLED then p.stacks - {s.tasks[n - 1].stackFrame} else p.stacks
  {
  }

  /** What it asks of the heap. */
  lemma FreeTurn(c: Setting, bs: seq<Block>, s: S.Sched, n: nat, b: seq<Block>)
    requires Settled(c.start, bs) && S.Shaped(s) && 1 < n <= S.TASK_MAX && FreeKilled(c, bs, s, n).Some?
    requires b == FreeKilled(c, bs, s, n - 1).value
    ensures Settled(c.start, b)
    ensures Some(FreeKilled(c, bs, s, n).value) ==
            if s.tasks[n - 1].state == S.KILLED then AfterCall(c, b, Free(s.tasks[n - 1].stackFrame)) else Some(b)
  {
  }

  /** The stack given back in a turn has been handed out until then. */
  lemma LiveTillTurn(c: Setting, bs: seq<Block>, s: S.Sched, n: nat, b: seq<Block>, p: S.Sched)
    requires Settled(c.start, bs) && S.Consistent(s) && S.Owned(s) && HandedOut(c.start, bs, s.stacks)
    requires 1 < n <= S.TASK_MAX && FreeKilled(c, bs, s, n - 1).Some? && s.tasks[n - 1].state == S.KILLED
    requires b == FreeKilled(c, bs, s, n - 1).value && p == S.PurgeBelow(s, n - 1) && p.tasks[n - 1] == s.tasks[n - 1]
    ensures IsLive(c.start, b, s.tasks[n - 1].stackFrame, TASK_STACK_SIZE)
  {
    PurgesGiveBack(c, bs, s, n - 1);
    S.PurgeBelowConsistent(s, n - 1);
    assert S.Owns(p, n - 1);
  }

  lemma TurnKeeps(c: Setting, b: seq<Block>, stacks: set<uint32>, x: uint32, y: uint32, killed: bool, b': seq<Block>,
                  stacks': set<uint32>)
    requires Settled(c.start, b) && GivenBack(c.start, b, stacks, x) && (killed ==> x != y)
    requires Some(b') == if killed then AfterCall(c, b, Free(y)) else Some(b)
    requires stacks' == if killed then stacks - {y} else stacks
    ensures GivenBack(c.start, b', stacks', x)
  {
    if killed {
      ReleaseGivesBack(c, b, stacks, x, y, b');
    }
  }

  lemma LastGivenBack(c: Setting, bs: seq<Block>, s: S.Sched, n: nat, x: uint32)
    requires Settled(c.start, bs) && S.Consistent(s) && S.Owned(s) && HandedOut(c.start, bs, s.stacks)
    requires 1 < n <= S.TASK_MAX && FreeKilled(c, bs, s, n).Some?
    requires s.tasks[n - 1].state == S.KILLED && x == s.tasks[n - 1].stackFrame
    ensures GivenBack(c.start, FreeKilled(c, bs, s, n).value, S.PurgeBelow(s, n).stacks, x)
  {
    var b, p := FreeKilled(c, bs, s, n - 1).value, S.PurgeBelow(s, n - 1);
    PurgeTurn(s, n, p);
    FreeTurn(c, bs, s, n, b);
    LiveTillTurn(c, bs, s, n, b, p);
    ReleaseGivesBack(c, b, p.stacks, x, x, FreeKilled(c, bs, s, n).value);
  }

  lemma OtherStack(s: S.Sched, i: nat, k: nat)
    requires S.OwnsDistinct(s) && |s.tasks| == S.SLOTS && 1 <= i < k < S.TASK_MAX && s.tasks[i].state == S.KILLED
    ensures s.tasks[k].state == S.KILLED ==> s.tasks[k].stackFrame != s.tasks[i].stackFrame
  {
    assert S.Owns(s, i);
  }

  lemma StaysGivenBack(c: Setting, bs: seq<Block>, s: S.Sched, n: nat, x: uint32)
    requires Settled(c.start, bs) && S.Shaped(s) && 1 < n <= S.TASK_MAX && FreeKilled(c, bs, s, n).Some?
    requires s.tasks[n - 1].state == S.KILLED ==> s.tasks[n - 1].stackFrame != x
    requires GivenBack(c.start, FreeKilled(c, bs, s, n - 1).value, S.PurgeBelow(s, n - 1).stacks, x)
    ensures GivenBack(c.start, FreeKilled(c, bs, s, n).value, S.PurgeBelow(s, n).stacks, x)
  {
    var b, p := FreeKilled(c, bs, s, n - 1).value, S.PurgeBelow(s, n - 1);
    PurgeTurn(s, n, p);
    FreeTurn(c, bs, s, n, b);
    TurnKeeps(c, b, p.stacks, x, s.tasks[n - 1].stackFrame, s.tasks[n - 1].state == S.KILLED,
              FreeKilled(c, bs, s, n).value, S.PurgeBelow(s, n).stacks);
  }

  /** Once the purge loop has passed slot `i`, the heap has the stack of a killed task there back. */
  lemma {:induction false} PurgedGivenBack(c: Setting, bs: seq<Block>, s: S.Sched, n: nat, i: nat, x: uint32)
    requires Settled(c.start, bs) && S.Consistent(s) && S.Owned(s) && HandedOut(c.start, bs, s.stacks)
    requires 1 <= i < n <= S.TASK_MAX && FreeKilled(c, bs, s, n).Some?
    requires s.tasks[i].state == S.KILLED && x == s.tasks[i].stackFrame
    ensures GivenBack(c.start, FreeKilled(c, bs, s, n).value, S.PurgeBelow(s, n).stacks, x)
  {
    if i == n - 1 {
      LastGivenBack(c, bs, s, n, x);
    } else {
      PurgedGivenBack(c, bs, s, n - 1, i, x);
      OtherStack(s, i, n - 1);
      StaysGivenBack(c, bs, s, n, x);
    }
  }

  /**
   * A task that exits, or is killed while it runs, is still on its stack when the next `task_schedule` gives that back
   * to the heap, which clears it.
   */
  lemma OwnStackGivenBack(c: Setting, w: World, x: uint32)
    requires Sound(c, w) && MayAct(c, w, Schedule) && w.table.current != 0
    requires w.table.tasks[w.table.current].state == S.KILLED && x == w.table.tasks[w.table.current].stackFrame
    ensures IsLive(c.start, w.blocks, x, TASK_STACK_SIZE)
    ensures var r := Step(c, w, Schedule); GivenBack(c.start, r.blocks, r.table.stacks, x)
  {
    var t := S.Ticked(w.table);
    assert S.Owns(w.table, w.table.current);
    S.SameOwners(w.table, t);
    PurgedGivenBack(c, w.blocks, t, S.TASK_MAX, w.table.current, x);
    SwitchKeepsStacks(w.table, S.PurgeBelow(t, S.TASK_MAX));
  }

  lemma InitSound(c: Setting)
    requires Place(c.start)
    ensures Sound(c, World(S.Init(S.Fresh()), Initial()))
  {
    S.InitSafe();
    InitialSettled(c.start);
  }

  /** So the stack a new task is given is one the task can be created on, with idle's stack off the heap. */
  lemma NewStackIsClear(l: I.Layout, c: Setting, w: World, state: S.State, x: uint32)
    requires Sound(c, w) && Starts(state) && MayAct(c, w, Create(state, 0)) && x == StackOf(c.start, w.blocks)
    requires 0 < |l.lo| == |l.hi| && (l.hi[0] <= c.start || c.start as int + HEAP_MAX_SIZE + OVERHEAD <= l.lo[0])
    ensures S.CanCreate(w.table, state, x) && M.ClearOfStacks(l, w.table, x)
  {
    NewStack(c.start, w.blocks, w.table.stacks, c.repaired, c.quiet, x);
  }

  // ------------------------------------------------------------------
  // A stack that comes again
  // ------------------------------------------------------------------

  lemma TakesFreed(start: uint32, bs: seq<Block>, i: nat)
    requires Tiled(start, bs) && 0 < i < |bs| && bs[i].size == TASK_STACK_SIZE
    requires forall j :: 0 <= j < |bs| && bs[j].size == TASK_STACK_SIZE ==> bs[j].used
    requires 0 <= LastLink(start, bs[..i]) < TWO32
    ensures Best(Freed(start, bs, i), TASK_STACK_SIZE) == i && Serves(start, Freed(start, bs, i))
    ensures Addr(start, Freed(start, bs, i), i) == Addr(start, bs, i)
  {
    var f := Freed(start, bs, i);
    assert f[..i] == bs[..i];
    assert f[i] == Block(TASK_STACK_SIZE, false, LastLink(start, bs[..i]));
    assert forall j :: 0 <= j < |bs| && j != i ==> f[j] == bs[j];
    assert Fits(f[i], TASK_STACK_SIZE);
    var k := Best(f, TASK_STACK_SIZE);
    assert f[k].size == TASK_STACK_SIZE;
  }

  /**
   * A stack given back between used neighbours is the next one the heap hands out, unless it has another free block of
   * just that size.
   */
  lemma StackComesAgain(start: uint32, bs: seq<Block>, i: nat, x: uint32, repaired: bool, quiet: bool)
    requires Settled(start, bs) && 0 < i < |bs| && x == Addr(start, bs, i) + HEADER
    requires bs[i].used && bs[i].size == TASK_STACK_SIZE && bs[i - 1].used && !RightFree(bs, i)
    requires forall j :: 0 <= j < |bs| && bs[j].size == TASK_STACK_SIZE ==> bs[j].used
    ensures var n := Next(start, bs, Free(x), repaired, quiet);
            n.Some? && Settled(start, n.value) && Serves(start, n.value) && StackOf(start, n.value) == x
  {
    FreeBetween(start, bs, i, repaired, quiet);
    NextSettled(start, bs, Free(x), repaired, quiet);
    TakesFreed(start, bs, i);
  }

  /** The heap after two requests for stacks, the first of which is served at its end. */
  function TwoServed(start: uint32): (bs: seq<Block>)
    ensures |bs| == 3
  {
    [Block(HEAP_MAX_SIZE - 2 * (TASK_STACK_SIZE + OVERHEAD), false, 0), Block(TASK_STACK_SIZE, true, start),
     Block(TASK_STACK_SIZE, true, start)]
  }

  function FirstStack(start: uint32): uint32
    requires Place(start)
  {
    start + HEAP_MAX_SIZE + HEADER - TASK_STACK_SIZE
  }

  lemma ServesSplit(c: Setting, f: Block, r: seq<Block>, f': Block, r': seq<Block>)
    requires Settled(c.start, [f] + r) && !f.used && forall j :: 0 <= j < |r| ==> r[j].used
    requires TASK_STACK_SIZE + OVERHEAD < f.size && f' == f.(size := f.size - TASK_STACK_SIZE - OVERHEAD)
    requires r' == [Block(TASK_STACK_SIZE, true, c.start)] + r
    ensures Serves(c.start, [f] + r) && StackOf(c.start, [f] + r) == c.start as int + f.size - TASK_STACK_SIZE + HEADER
    ensures Next(c.start, [f] + r, Malloc(TASK_STACK_SIZE), c.repaired, c.quiet) == Some([f'] + r')
    ensures Settled(c.start, [f'] + r') && forall j :: 0 <= j < |r'| ==> r'[j].used
  {
    FrontSplit(c.start, f, r, TASK_STACK_SIZE, f', r', c.quiet);
    var bs := [f] + r;
    assert bs[..0] == [] && bs[0] == f;
    assert forall j :: 0 < j < |bs| ==> bs[j] == r[j - 1];
    assert Fits(bs[0], TASK_STACK_SIZE) && Best(bs, TASK_STACK_SIZE) == 0;
  }

  function OneServed(start: uint32): (bs: seq<Block>)
    ensures |bs| == 2
  {
    [Block(HEAP_MAX_SIZE - TASK_STACK_SIZE - OVERHEAD, false, 0), Block(TASK_STACK_SIZE, true, start)]
  }

  lemma HeapGivesTwo(c: Setting, f0: Block, f1: Block, f2: Block, r0: seq<Block>, r1: seq<Block>, r2: seq<Block>)
    requires Place(c.start) && f0 == Block(HEAP_MAX_SIZE, false, 0) && r0 == []
    requires f1 == f0.(size := f0.size - TASK_STACK_SIZE - OVERHEAD)
    requires f2 == f1.(size := f1.size - TASK_STACK_SIZE - OVERHEAD)
    requires r1 == [Block(TASK_STACK_SIZE, true, c.start)] + r0 && r2 == [Block(TASK_STACK_SIZE, true, c.start)] + r1
    ensures Settled(c.start, [f0] + r0) && Serves(c.start, [f0] + r0)
    ensures StackOf(c.start, [f0] + r0) == FirstStack(c.start)
    ensures AfterCall(c, [f0] + r0, Malloc(TASK_STACK_SIZE)) == Some([f1] + r1)
    ensures Settled(c.start, [f1] + r1) && Serves(c.start, [f1] + r1)
    ensures AfterCall(c, [f1] + r1, Malloc(TASK_STACK_SIZE)) == Some([f2] + r2) && Settled(c.start, [f2] + r2)
  {
    assert [f0] + r0 == Initial();
    InitialSettled(c.start);
    ServesSplit(c, f0, r0, f1, r1);
    ServesSplit(c, f1, r1, f2, r2);
  }

  /** The heap's part: it gives two stacks. */
  lemma TwoGiven(c: Setting)
    requires Place(c.start)
    ensures Settled(c.start, Initial()) && Serves(c.start, Initial())
    ensures StackOf(c.start, Initial()) == FirstStack(c.start)
    ensures AfterCall(c, Initial(), Malloc(TASK_STACK_SIZE)) == Some(OneServed(c.start))
    ensures Settled(c.start, OneServed(c.start)) && Serves(c.start, OneServed(c.start))
    ensures AfterCall(c, OneServed(c.start), Malloc(TASK_STACK_SIZE)) == Some(TwoServed(c.start))
    ensures Settled(c.start, TwoServed(c.start))
  {
    var f0, f1, f2 := Initial()[0], OneServed(c.start)[0], TwoServed(c.start)[0];
    var r1, r2 := [OneServed(c.start)[1]] + [], [TwoServed(c.start)[1]] + ([TwoServed(c.start)[2]] + []);
    HeapGivesTwo(c, f0, f1, f2, [], r1, r2);
    assert Initial() == [f0] + [];
    assert OneServed(c.start) == [f1] + r1;
    assert TwoServed(c.start) == [f2] + r2;
  }

  /** Once it is given back the stack at `x` is the next one handed out. */
  predicate StackIsNext(c: Setting, bs: seq<Block>, x: uint32)
    requires Settled(c.start, bs)
  {
    var n := AfterCall(c, bs, Free(x));
    n.Some? && Serves(c.start, n.value) && StackOf(c.start, n.value) == x
  }

  /** It gives the first of them again once it has it back. */
  lemma FirstComesAgain(c: Setting, bs: seq<Block>)
    requires Place(c.start) && bs == TwoServed(c.start) && Settled(c.start, bs)
    ensures StackIsNext(c, bs, FirstStack(c.start))
  {
    assert bs[..0] == [];
    AddrNext(c.start, bs, 0);
    AddrNext(c.start, bs, 1);
    StackComesAgain(c.start, bs, 2, FirstStack(c.start), c.repaired, c.quiet);
  }

  /** The purge loop when only the first task has been killed. */
  lemma {:induction false} OneKilled(c: Setting, bs: seq<Block>, s: S.Sched, n: nat)
    requires Settled(c.start, bs) && S.Shaped(s) && n <= S.TASK_MAX
    requires forall i :: 1 <= i < S.TASK_MAX ==> (s.tasks[i].state == S.KILLED <==> i == 1)
    ensures FreeKilled(c, bs, s, n) == if n >= 2 then AfterCall(c, bs, Free(s.tasks[1].stackFrame)) else Some(bs)
  {
    if n > 0 {
      OneKilled(c, bs, s, n - 1);
    }
  }

  /** Two tasks besides idle, which runs. */
  predicate TwoTasks(s: S.Sched, first: S.State, x: uint32) {
    && |s.tasks| == S.SLOTS && s.current == 0 && s.last == 3
    && s.tasks[1].state == first && s.tasks[2].state == S.WAITING && s.tasks[1].stackFrame == x
  }

  lemma PurgedWorld(c: Setting, w: World, x: uint32)
    requires Sound(c, w) && TwoTasks(w.table, S.KILLED, x) && StackIsNext(c, w.blocks, x)
    ensures MayAct(c, w, Schedule)
    ensures var r := Step(c, w, Schedule);
            && r.table.last == 3 && r.table.tasks[1].state == S.EMPTY
            && Serves(c.start, r.blocks) && StackOf(c.start, r.blocks) == x
  {
    OneKilled(c, w.blocks, S.Ticked(w.table), S.TASK_MAX);
    M.AfterSchedule(w.table, 1);
    S.ScheduleSafe(w.table);
  }

  /** A run, one act at a time. */
  lemma OneMore(c: Setting, w: World, act: Act, w': World, acts: seq<Act>)
    requires Sound(c, w) && MayAct(c, w, act) && w' == Step(c, w, act) && Sound(c, w') && AllMayAct(c, w', acts)
    ensures AllMayAct(c, w, [act] + acts) && After(c, w, [act] + acts) == After(c, w', acts)
  {
    assert ([act] + acts)[1..] == acts;
  }

  /** The third of three tasks has the stack of the first, which is no more. */
  ghost predicate UsedAgain(w: World, x: uint32) {
    && |w.table.tasks| == S.SLOTS && w.table.tasks[1].state == S.EMPTY
    && w.table.tasks[3].state == S.WAITING && w.table.tasks[3].stackFrame == x
  }

  lemma KilledWorld(c: Setting, w: World, x: uint32)
    requires Sound(c, w) && TwoTasks(w.table, S.WAITING, x)
    ensures TwoTasks(Step(c, w, Kill(1)).table, S.KILLED, x) && Step(c, w, Kill(1)).blocks == w.blocks
  {
  }

  lemma ThirdWorld(c: Setting, w: World, x: uint32)
    requires Sound(c, w) && w.table.last == 3 && w.table.tasks[1].state == S.EMPTY
    requires Serves(c.start, w.blocks) && StackOf(c.start, w.blocks) == x
    ensures UsedAgain(Step(c, w, Create(S.WAITING, 0)), x)
  {
    NewStack(c.start, w.blocks, w.table.stacks, c.repaired, c.quiet, x);
  }

  lemma ThirdCreated(c: Setting, w: World, x: uint32, w1: World, w2: World, w3: World)
    requires Sound(c, w) && TwoTasks(w.table, S.WAITING, x) && StackIsNext(c, w.blocks, x)
    requires w1 == Step(c, w, Kill(1)) && Sound(c, w1)
    requires MayAct(c, w1, Schedule) && w2 == Step(c, w1, Schedule) && Sound(c, w2)
    requires MayAct(c, w2, Create(S.WAITING, 0)) && w3 == Step(c, w2, Create(S.WAITING, 0)) && Sound(c, w3)
    ensures AllMayAct(c, w, [Kill(1)] + ([Schedule] + ([Create(S.WAITING, 0)] + [])))
    ensures After(c, w, [Kill(1)] + ([Schedule] + ([Create(S.WAITING, 0)] + []))) == w3
  {
    OneMore(c, w2, Create(S.WAITING, 0), w3, []);
    OneMore(c, w1, Schedule, w2, [Create(S.WAITING, 0)] + []);
    OneMore(c, w, Kill(1), w1, [Schedule] + ([Create(S.WAITING, 0)] + []));
  }

  lemma FirstGone(c: Setting, w: World, x: uint32)
    requires Sound(c, w) && TwoTasks(w.table, S.WAITING, x) && StackIsNext(c, w.blocks, x)
    ensures AllMayAct(c, w, [Kill(1)] + ([Schedule] + ([Create(S.WAITING, 0)] + [])))
    ensures UsedAgain(After(c, w, [Kill(1)] + ([Schedule] + ([Create(S.WAITING, 0)] + []))), x)
  {
    var w1 := Step(c, w, Kill(1));
    StepSound(c, w, Kill(1));
    KilledWorld(c, w, x);
    PurgedWorld(c, w1, x);
    var w2 := Step(c, w1, Schedule);
    StepSound(c, w1, Schedule);
    ThirdWorld(c, w2, x);
    var w3 := Step(c, w2, Create(S.WAITING, 0));
    StepSound(c, w2, Create(S.WAITING, 0));
    ThirdCreated(c, w, x, w1, w2, w3);
  }

  /** A create from a table that is not full. */
  lemma CreatedWorld(c: Setting, w: World, w': World)
    requires Sound(c, w) && w.table.last < S.TASK_MAX && Serves(c.start, w.blocks)
    requires w' == Step(c, w, Create(S.WAITING, 0))
    ensures var x := StackOf(c.start, w.blocks);
            && w'.table == S.Create(w.table, S.WAITING, x, 0) && x < S.KMALLOC_FAIL
            && AfterCall(c, w.blocks, Malloc(TASK_STACK_SIZE)) == Some(w'.blocks)
  {
    NewStack(c.start, w.blocks, w.table.stacks, c.repaired, c.quiet, StackOf(c.start, w.blocks));
  }

  lemma TwoCreated(c: Setting, w: World, w1: World, w2: World)
    requires Place(c.start) && w == World(S.Init(S.Fresh()), Initial()) && Sound(c, w)
    requires MayAct(c, w, Create(S.WAITING, 0)) && w1 == Step(c, w, Create(S.WAITING, 0)) && Sound(c, w1)
    requires w1.blocks == OneServed(c.start)
    requires MayAct(c, w1, Create(S.WAITING, 0)) && w2 == Step(c, w1, Create(S.WAITING, 0))
    ensures TwoTasks(w2.table, S.WAITING, FirstStack(c.start)) && w2.blocks == TwoServed(c.start)
  {
    TwoGiven(c);
    CreatedWorld(c, w, w1);
    CreatedWorld(c, w1, w2);
  }

  lemma FiveActs(a: Act, b: Act, x: Act, y: Act, z: Act)
    ensures [a, b, x, y, z] == [a] + ([b] + ([x] + ([y] + ([z] + []))))
  {
  }

  /**
   * From `heap_init` and `task_init`: of two tasks the first is killed and purged, and a third one gets its stack, as
   * the heap's pointers have it.
   */
  lemma StackUsedAgain(c: Setting, w: World, acts: seq<Act>)
    requires Place(c.start) && w == World(S.Init(S.Fresh()), Initial()) && Sound(c, w)
    requires acts == [Create(S.WAITING, 0), Create(S.WAITING, 0), Kill(1), Schedule, Create(S.WAITING, 0)]
    ensures AllMayAct(c, w, acts) && UsedAgain(After(c, w, acts), FirstStack(c.start))
  {
    var create, rest := Create(S.WAITING, 0), [Kill(1)] + ([Schedule] + ([Create(S.WAITING, 0)] + []));
    TwoGiven(c);
    StepSound(c, w, create);
    var w1 := Step(c, w, create);
    CreatedWorld(c, w, w1);
    StepSound(c, w1, create);
    var w2 := Step(c, w1, create);
    TwoCreated(c, w, w1, w2);
    FirstComesAgain(c, w2.blocks);
    FirstGone(c, w2, FirstStack(c.start));
    OneMore(c, w1, create, w2, rest);
    OneMore(c, w, create, w1, [create] + rest);
    FiveActs(create, create, Kill(1), Schedule, create);
  }
}
