/** The scheduler and the context switch together, kernel/task.c. */
module Multitasking {
  import opened Words
  import opened HeapMemory
  import opened TaskLayout
  import opened TaskSwitch
  import I = Isolation
  import NewTasks
  import S = Scheduler

  datatype Joint = Joint(table: S.Sched, system: I.System)

  /** A slot other than the current one whose task is alive. */
  predicate Away(s: S.Sched, i: nat) {
    i < S.TASK_MAX && i != s.current && |s.tasks| == S.SLOTS && S.Killable(s.tasks[i])
  }

  /** The stacks in the table are where the layout has them. */
  ghost predicate StacksAgree(l: I.Layout, s: S.Sched) {
    |l.lo| == S.TASK_MAX && forall i :: S.Owns(s, i) ==> s.tasks[i].stackFrame == l.lo[i]
  }

  /** Only tasks of the table are parked. */
  ghost predicate OnlyTasks(j: Joint) {
    |j.table.tasks| == S.SLOTS && j.table.last <= S.TASK_MAX &&
    forall i :: i in j.system.parked ==> i < j.table.last && j.table.tasks[i].state != S.EMPTY
  }

  /**
   * Table and processor agree on the current task and on the stacks, and every live task but the current one is parked.
   */
  ghost predicate Joined(l: I.Layout, j: Joint) {
    && S.Safe(j.table) && I.Sound(l, j.system) && |l.lo| == S.TASK_MAX
    && (forall i :: 1 <= i < S.TASK_MAX ==> l.hi[i] == l.lo[i] + TASK_STACK_SIZE)
    && j.system.current == j.table.current
    && (forall i: nat :: Away(j.table, i) ==> i in j.system.parked)
    && OnlyTasks(j) && StacksAgree(l, j.table)
  }

  // ------------------------------------------------------------------
  // What happens
  // ------------------------------------------------------------------

  /**
   * Calls, and what the current task computes between them; `Schedule` has the machine at the call of `task_switch`.
   */
  datatype Act =
    | Create(state: S.State, start: uint32, isrExit: uint32, cr3: uint32)
    | Kill(id: uint32)
    | Exit
    | Compute(machine: Machine)
    | Schedule(machine: Machine)

  predicate Starts(state: S.State) {
    state == S.PAUSED || state == S.WAITING
  }

  /** The slots a schedule purges: their stacks go back to the heap, so that nothing on them lasts. */
  function Killed(s: S.Sched): (r: set<nat>)
    requires |s.tasks| == S.SLOTS
    ensures forall i :: i in r <==> 1 <= i < S.TASK_MAX && s.tasks[i].state == S.KILLED
  {
    set i: nat | 1 <= i < S.TASK_MAX && s.tasks[i].state == S.KILLED
  }

  /** Without what these tasks have parked. */
  ghost function Without(l: I.Layout, s: I.System, slots: set<nat>): (r: I.System)
    requires I.Sound(l, s)
    ensures I.Sound(l, r) && r == s.(parked := s.parked - slots)
  {
    I.NextSound(l, s, I.Drops(slots));
    I.Next(l, s, I.Drops(slots))
  }

  ghost function Purged(l: I.Layout, j: Joint): (r: I.System)
    requires Joined(l, j)
    ensures I.Sound(l, r)
  {
    Without(l, j.system, Killed(j.table))
  }

  /** The task `task_schedule` goes to. */
  ghost function NextTask(s: S.Sched): nat
    requires S.Safe(s)
  {
    S.ScheduleSafe(s);
    S.Schedule(s, 0).current
  }

  /** At the call of `task_switch` with these two tasks, on the outgoing one's stack. */
  ghost predicate AtCall(l: I.Layout, m: Machine, prev: nat, next: nat)
    requires prev < |l.lo| && |l.lo| == |l.hi|
  {
    && Call(m, I.Slot(l, prev), I.Slot(l, next))
    && l.lo[prev] <= m.cpu.esp - 16 && m.cpu.esp as int + 12 <= l.hi[prev]
  }

  /**
   * A stack clear of all that are handed out and of idle's, as the heap gives them; it may be one that a purge gave
   * back.
   */
  predicate ClearOfStacks(l: I.Layout, s: S.Sched, x: uint32)
    requires 0 < |l.lo| == |l.hi|
  {
    && (forall y :: y in s.stacks ==> x as int + TASK_STACK_SIZE <= y || y as int + TASK_STACK_SIZE <= x)
    && (x as int + TASK_STACK_SIZE <= l.lo[0] || l.hi[0] <= x)
  }

  /** What the callers must see to. That the task to switch to is one that can be resumed is not among it. */
  ghost predicate MayAct(l: I.Layout, j: Joint, act: Act)
    requires Joined(l, j)
  {
    match act
    case Create(state, _, _, _) =>
      Starts(state) ==>
        && j.table.last < S.TASK_MAX && S.CanCreate(j.table, state, l.lo[j.table.last])
        && ClearOfStacks(l, j.table, l.lo[j.table.last])
    case Kill(_) => true
    case Exit => j.table.current != 0
    case Compute(m) => I.Legal(l, j.system, I.Computes(m))
    case Schedule(m) =>
      I.Legal(l, Purged(l, j), I.Computes(m)) && AtCall(l, m, j.table.current, NextTask(j.table))
  }

  /** The system at the call of `task_switch`. */
  ghost function AtSwitch(l: I.Layout, j: Joint, m: Machine): (r: I.System)
    requires Joined(l, j) && I.Legal(l, Purged(l, j), I.Computes(m))
    ensures I.Sound(l, r) && r == I.System(m, j.table.current, j.system.parked - Killed(j.table))
  {
    I.NextSound(l, Purged(l, j), I.Computes(m));
    I.Next(l, Purged(l, j), I.Computes(m))
  }

  /** The slot picked is one of the table's, and its task is alive. */
  lemma PickedIsAlive(s: S.Sched)
    requires S.Safe(s)
    ensures NextTask(s) < S.TASK_MAX && S.Runnable(s.tasks[NextTask(s)])
  {
    S.ScheduleNext(s);
    S.ScheduleSafe(s);
  }

  /** Every `task_schedule` is a legal switch: the task it picks is the current one, or is parked. */
  lemma ScheduleIsLegal(l: I.Layout, j: Joint, m: Machine)
    requires Joined(l, j) && MayAct(l, j, Schedule(m))
    ensures I.Legal(l, AtSwitch(l, j, m), I.Switches(NextTask(j.table)))
  {
    PickedIsAlive(j.table);
    var next := NextTask(j.table);
    if next != j.table.current {
      assert Away(j.table, next);
    }
  }

  /** A task that exited, or was killed by itself, is not to come back. */
  ghost function Gone(s: S.Sched): set<nat>
    requires S.Shaped(s)
  {
    if s.tasks[s.current].state == S.KILLED then {s.current} else {}
  }

  /** The parked tasks after a schedule: without those purged and the one picked, and with the caller. */
  ghost function ParkedNext(j: Joint, m: Machine): map<nat, Context>
    requires S.Safe(j.table)
  {
    I.ParkedAfter(I.System(m, j.table.current, j.system.parked - Killed(j.table)), NextTask(j.table)) - Gone(j.table)
  }

  /** The system when `task_switch` returns, in the task picked. */
  ghost function Arrived(l: I.Layout, j: Joint, m: Machine): (r: I.System)
    requires Joined(l, j) && MayAct(l, j, Schedule(m))
    ensures I.Sound(l, r) && r.current == NextTask(j.table)
    ensures r.parked ==
            I.ParkedAfter(I.System(m, j.table.current, j.system.parked - Killed(j.table)), NextTask(j.table))
  {
    ScheduleIsLegal(l, j, m);
    I.NextSound(l, AtSwitch(l, j, m), I.Switches(NextTask(j.table)));
    I.Next(l, AtSwitch(l, j, m), I.Switches(NextTask(j.table)))
  }

  ghost function Switched(l: I.Layout, j: Joint, m: Machine): (r: I.System)
    requires Joined(l, j) && MayAct(l, j, Schedule(m))
    ensures I.Sound(l, r) && r.current == NextTask(j.table)
    ensures r.parked == ParkedNext(j, m)
  {
    Without(l, Arrived(l, j, m), Gone(j.table))
  }

  /** What `task_create` does to the processor's memory, in the slot after the last. */
  ghost function Creation(l: I.Layout, j: Joint, act: Act): I.Event
    requires Joined(l, j) && act.Create?
  {
    I.Creates(j.table.last, j.table.last, act.start, act.isrExit, act.cr3, NewTasks.StateWord(act.state))
  }

  /** What holds something on a stack is idle, or owns the stack in the table. */
  lemma HoldersOwn(l: I.Layout, j: Joint, i: nat)
    requires Joined(l, j) && I.Holds(j.system, i)
    ensures i == 0 || S.Owns(j.table, i)
  {
  }

  lemma CreationIsLegal(l: I.Layout, j: Joint, act: Act)
    requires Joined(l, j) && act.Create? && Starts(act.state) && MayAct(l, j, act)
    ensures I.Legal(l, j.system, Creation(l, j, act))
  {
    var slot := j.table.last;
    forall i: nat | I.Holds(j.system, i)
      ensures I.Apart(l, slot, i)
    {
      HoldersOwn(l, j, i);
      assert i < slot && l.hi[slot] == l.lo[slot] + TASK_STACK_SIZE;
      if i != 0 {
        assert l.lo[i] == j.table.tasks[i].stackFrame && l.lo[i] in j.table.stacks;
      }
    }
  }

  ghost function Next(l: I.Layout, j: Joint, act: Act): Joint
    requires Joined(l, j) && MayAct(l, j, act)
  {
    match act
    case Create(state, _, _, cr3) =>
      if Starts(state) then
        CreationIsLegal(l, j, act);
        Joint(S.Create(j.table, state, l.lo[j.table.last], cr3), I.Next(l, j.system, Creation(l, j, act)))
      else j
    case Kill(id) => j.(table := S.Kill(j.table, id))
    case Exit => j.(table := S.Exit(j.table))
    case Compute(m) => j.(system := I.Next(l, j.system, I.Computes(m)))
    case Schedule(m) => S.ScheduleSafe(j.table); Joint(S.Schedule(j.table, 0), Switched(l, j, m))
  }

  // ------------------------------------------------------------------
  // What every run keeps
  // ------------------------------------------------------------------

  lemma CreationParks(l: I.Layout, j: Joint, act: Act)
    requires Joined(l, j) && act.Create? && Starts(act.state) && MayAct(l, j, act)
    requires I.Legal(l, j.system, Creation(l, j, act))
    ensures forall i :: i in I.Next(l, j.system, Creation(l, j, act)).parked <==>
            i in j.system.parked || i == j.table.last
  {
  }

  lemma AwayBeforeCreate(s: S.Sched, state: S.State, stack: uint32, cr3: uint32, i: nat)
    requires S.Shaped(s) && Away(S.Create(s, state, stack, cr3), i)
    ensures i == s.last || Away(s, i)
  {
  }

  /** The table after a create: whose tasks are alive, and where their stacks are. */
  lemma CreateInTable(l: I.Layout, s: S.Sched, state: S.State, stack: uint32, cr3: uint32, r: S.Sched)
    requires S.Safe(s) && s.last < S.TASK_MAX && Starts(state) && StacksAgree(l, s) && stack == l.lo[s.last]
    requires S.CanCreate(s, state, stack) && r == S.Create(s, state, stack, cr3)
    ensures S.Safe(r) && r.current == s.current && StacksAgree(l, r)
    ensures forall i: nat :: Away(r, i) ==> i == s.last || Away(s, i)
    ensures r.last == s.last + 1 && r.tasks[s.last].state != S.EMPTY
    ensures forall i: nat :: i < s.last ==> r.tasks[i] == s.tasks[i]
  {
    S.CreateSafe(s, state, stack, cr3);
    forall i | S.Owns(r, i)
      ensures r.tasks[i].stackFrame == l.lo[i]
    {
      assert i == s.last || S.Owns(s, i);
    }
    forall i: nat | Away(r, i)
      ensures i == s.last || Away(s, i)
    {
      AwayBeforeCreate(s, state, stack, cr3, i);
    }
  }

  lemma CreateJoined(l: I.Layout, j: Joint, act: Act)
    requires Joined(l, j) && act.Create? && Starts(act.state) && MayAct(l, j, act)
    ensures Joined(l, Next(l, j, act))
  {
    var r := Next(l, j, act);
    CreationIsLegal(l, j, act);
    I.NextSound(l, j.system, Creation(l, j, act));
    assert r.system == I.Next(l, j.system, Creation(l, j, act));
    CreateInTable(l, j.table, act.state, l.lo[j.table.last], act.cr3, r.table);
    CreationParks(l, j, act);
    CreatedJoined(l, j, r);
  }

  /** The new task and the others, in the table and parked. */
  lemma CreatedJoined(l: I.Layout, j: Joint, r: Joint)
    requires Joined(l, j) && S.Safe(r.table) && I.Sound(l, r.system) && StacksAgree(l, r.table)
    requires r.table.current == j.table.current && r.system.current == j.system.current
    requires forall i: nat :: Away(r.table, i) ==> i == j.table.last || Away(j.table, i)
    requires forall i :: i in r.system.parked <==> i in j.system.parked || i == j.table.last
    requires r.table.last == j.table.last + 1 <= S.TASK_MAX && r.table.tasks[j.table.last].state != S.EMPTY
    requires forall i: nat :: i < j.table.last ==> r.table.tasks[i] == j.table.tasks[i]
    ensures Joined(l, r)
  {
  }

  /** The tasks a schedule leaves alive, but for the one it picks, were alive before. */
  lemma AwayBefore(s: S.Sched, i: nat)
    requires S.Safe(s)
    ensures S.Safe(S.Schedule(s, 0)) && S.Schedule(s, 0).current == NextTask(s) && S.Schedule(s, 0).last == s.last
    ensures Away(S.Schedule(s, 0), i) ==> i < S.TASK_MAX && i != NextTask(s) && S.Killable(s.tasks[i])
  {
    S.ScheduleSafe(s);
    if Away(S.Schedule(s, 0), i) {
      var p := S.PurgeBelow(S.Ticked(s), S.TASK_MAX);
      assert S.Schedule(s, 0) == S.SwitchTo(p, NextTask(s));
      AliveBefore(s, p, NextTask(s), i);
    }
  }

  lemma AliveBefore(s: S.Sched, p: S.Sched, next: nat, i: nat)
    requires S.Shaped(s) && p == S.PurgeBelow(S.Ticked(s), S.TASK_MAX) && next < S.SLOTS && i < S.TASK_MAX && i != next
    requires S.Killable(S.SwitchTo(p, next).tasks[i])
    ensures S.Killable(s.tasks[i])
  {
    assert S.Killable(p.tasks[i]);
  }

  /** A schedule clears the killed tasks and changes no other's stack. */
  lemma AfterSchedule(s: S.Sched, i: nat)
    requires S.Safe(s) && i < S.TASK_MAX
    ensures S.Safe(S.Schedule(s, 0))
    ensures S.Owns(S.Schedule(s, 0), i) ==>
              S.Owns(s, i) && S.Schedule(s, 0).tasks[i].stackFrame == s.tasks[i].stackFrame
    ensures s.tasks[i].state != S.EMPTY && s.tasks[i].state != S.KILLED ==>
              S.Schedule(s, 0).tasks[i].state != S.EMPTY
    ensures 1 <= i && s.tasks[i].state == S.KILLED ==> S.Schedule(s, 0).tasks[i].state == S.EMPTY
  {
    S.ScheduleSafe(s);
    PickedIsAlive(s);
    var p := S.PurgeBelow(S.Ticked(s), S.TASK_MAX);
    assert S.Schedule(s, 0) == S.SwitchTo(p, NextTask(s));
    SwitchedTask(s, p, NextTask(s), i);
  }

  lemma SwitchedTask(s: S.Sched, p: S.Sched, next: nat, i: nat)
    requires S.Shaped(s) && p == S.PurgeBelow(S.Ticked(s), S.TASK_MAX) && next < S.SLOTS && i < S.TASK_MAX
    requires S.Runnable(s.tasks[next])
    ensures var r := S.SwitchTo(p, next);
            && (S.Owns(r, i) ==> S.Owns(s, i) && r.tasks[i].stackFrame == s.tasks[i].stackFrame)
            && (s.tasks[i].state != S.EMPTY && s.tasks[i].state != S.KILLED ==> r.tasks[i].state != S.EMPTY)
            && (1 <= i && s.tasks[i].state == S.KILLED ==> r.tasks[i].state == S.EMPTY)
  {
    var k := S.Ticked(s);
    assert p.tasks[i] == if 1 <= i && k.tasks[i].state == S.KILLED then S.Cleared(k.tasks[i]) else k.tasks[i];
  }

  /** A switch leaves the parked tasks parked, but for the one picked and those purged. */
  lemma StillParked(j: Joint, m: Machine, t: nat)
    requires S.Safe(j.table) && t in j.system.parked && t != j.table.current
    requires t !in Killed(j.table) && t != NextTask(j.table)
    ensures t in ParkedNext(j, m) && ParkedNext(j, m)[t] == j.system.parked[t]
  {
  }

  /** The task switched away from is parked where it called. */
  lemma CallerParked(j: Joint, m: Machine, t: nat)
    requires S.Safe(j.table) && t == j.table.current && NextTask(j.table) != t && j.table.tasks[t].state != S.KILLED
    ensures t in ParkedNext(j, m) && ParkedNext(j, m)[t] == Calling(m)
  {
  }

  lemma ParkedWereOrCalled(j: Joint, m: Machine, t: nat)
    requires S.Safe(j.table) && t in ParkedNext(j, m)
    ensures || (t in j.system.parked && t !in Killed(j.table))
            || (t == j.table.current && j.table.tasks[t].state != S.KILLED)
  {
  }

  lemma AwayAfter(l: I.Layout, j: Joint, m: Machine, i: nat)
    requires Joined(l, j) && MayAct(l, j, Schedule(m)) && S.Safe(S.Schedule(j.table, 0)) &&
             Away(S.Schedule(j.table, 0), i)
    ensures i in Switched(l, j, m).parked
  {
    AwayBefore(j.table, i);
    if i == j.table.current {
      CallerParked(j, m, i);
    } else {
      assert Away(j.table, i);
      StillParked(j, m, i);
    }
  }

  lemma ParkedAfterAreTasks(j: Joint, m: Machine, i: nat)
    requires S.Safe(j.table) && OnlyTasks(j) && i in ParkedNext(j, m)
    ensures S.Safe(S.Schedule(j.table, 0))
    ensures i < S.Schedule(j.table, 0).last && S.Schedule(j.table, 0).tasks[i].state != S.EMPTY
  {
    AwayBefore(j.table, i);
    ParkedWereOrCalled(j, m, i);
    AfterSchedule(j.table, i);
  }

  lemma ScheduleJoined(l: I.Layout, j: Joint, m: Machine)
    requires Joined(l, j) && MayAct(l, j, Schedule(m))
    ensures Joined(l, Next(l, j, Schedule(m)))
  {
    var r := Next(l, j, Schedule(m));
    AwayBefore(j.table, 0);
    forall i: nat | Away(r.table, i)
      ensures i in r.system.parked
    {
      AwayAfter(l, j, m, i);
    }
    assert OnlyTasks(r) by {
      forall i | i in r.system.parked
        ensures i < r.table.last && r.table.tasks[i].state != S.EMPTY
      {
        ParkedAfterAreTasks(j, m, i);
      }
    }
    assert StacksAgree(l, r.table) by {
      forall i | S.Owns(r.table, i)
        ensures r.table.tasks[i].stackFrame == l.lo[i]
      {
        AfterSchedule(j.table, i);
      }
    }
  }

  /** Marking a task killed. */
  function Marked(s: S.Sched, id: nat): S.Sched
    requires |s.tasks| == S.SLOTS && id < S.SLOTS
  {
    s.(tasks := s.tasks[id := s.tasks[id].(state := S.KILLED)])
  }

  lemma MarkedInTable(s: S.Sched, id: nat, i: nat)
    requires S.Shaped(s) && id < S.SLOTS && s.tasks[id].state != S.EMPTY && i < S.SLOTS
    ensures var r := Marked(s, id);
            && (Away(r, i) ==> Away(s, i))
            && (S.Owns(r, i) ==> S.Owns(s, i) && r.tasks[i].stackFrame == s.tasks[i].stackFrame)
            && (s.tasks[i].state != S.EMPTY ==> r.tasks[i].state != S.EMPTY)
  {
  }

  lemma MarkedJoined(l: I.Layout, j: Joint, r: S.Sched, id: nat)
    requires Joined(l, j) && S.Safe(r) && id < S.SLOTS && j.table.tasks[id].state != S.EMPTY
    requires r == Marked(j.table, id)
    ensures Joined(l, j.(table := r))
  {
    forall i: nat | i < S.SLOTS
      ensures Away(r, i) ==> Away(j.table, i)
      ensures S.Owns(r, i) ==> r.tasks[i].stackFrame == l.lo[i]
      ensures j.table.tasks[i].state != S.EMPTY ==> r.tasks[i].state != S.EMPTY
    {
      MarkedInTable(j.table, id, i);
    }
  }

  lemma KillJoined(l: I.Layout, j: Joint, id: uint32)
    requires Joined(l, j)
    ensures Joined(l, j.(table := S.Kill(j.table, id)))
  {
    S.KillSafe(j.table, id);
    if id <= S.TASK_MAX && id != 0 && S.Killable(j.table.tasks[id]) {
      MarkedJoined(l, j, S.Kill(j.table, id), id);
    }
  }

  lemma NextJoined(l: I.Layout, j: Joint, act: Act)
    requires Joined(l, j) && MayAct(l, j, act)
    ensures Joined(l, Next(l, j, act))
  {
    match act
    case Create(state, _, _, _) =>
      if Starts(state) {
        CreateJoined(l, j, act);
      }
    case Kill(id) =>
      KillJoined(l, j, id);
    case Exit =>
      S.ExitSafe(j.table);
      MarkedJoined(l, j, S.Exit(j.table), j.table.current);
    case Compute(m) => I.NextSound(l, j.system, I.Computes(m));
    case Schedule(m) => ScheduleJoined(l, j, m);
  }

  ghost predicate AllMayAct(l: I.Layout, j: Joint, acts: seq<Act>)
    requires Joined(l, j)
    decreases |acts|
  {
    acts == [] || (
      MayAct(l, j, acts[0]) && (NextJoined(l, j, acts[0]); AllMayAct(l, Next(l, j, acts[0]), acts[1..])))
  }

  ghost function After(l: I.Layout, j: Joint, acts: seq<Act>): (r: Joint)
    requires Joined(l, j) && AllMayAct(l, j, acts)
    ensures Joined(l, r)
    decreases |acts|
  {
    if acts == [] then j else NextJoined(l, j, acts[0]); After(l, Next(l, j, acts[0]), acts[1..])
  }

  /** Whenever `task_schedule` comes to its switch, that is legal. */
  ghost predicate SwitchesLegally(l: I.Layout, j: Joint)
    requires Joined(l, j)
  {
    forall m :: MayAct(l, j, Schedule(m)) ==> I.Legal(l, AtSwitch(l, j, m), I.Switches(NextTask(j.table)))
  }

  lemma JoinedSwitches(l: I.Layout, j: Joint)
    requires Joined(l, j)
    ensures SwitchesLegally(l, j)
  {
    forall m | MayAct(l, j, Schedule(m))
      ensures I.Legal(l, AtSwitch(l, j, m), I.Switches(NextTask(j.table)))
    {
      ScheduleIsLegal(l, j, m);
    }
  }

  /** Over every run table and processor stay joined, so that every `task_schedule` is a legal switch. */
  lemma RunIsJoined(l: I.Layout, j: Joint, acts: seq<Act>, r: Joint)
    requires Joined(l, j) && AllMayAct(l, j, acts) && r == After(l, j, acts)
    ensures forall i: nat :: i < S.TASK_MAX && i != r.system.current && S.Runnable(r.table.tasks[i]) ==>
              i in r.system.parked
    ensures SwitchesLegally(l, r)
  {
    forall i: nat | i < S.TASK_MAX && i != r.system.current && S.Runnable(r.table.tasks[i])
      ensures i in r.system.parked
    {
      assert Away(r.table, i);
    }
    JoinedSwitches(l, r);
  }

  /** Joined is how they start: `task_init` has run, and idle is the one task. */
  lemma InitJoined(l: I.Layout, m: Machine)
    requires I.OffTable(l) && |l.lo| == S.TASK_MAX
    requires forall i :: 1 <= i < S.TASK_MAX ==> l.hi[i] == l.lo[i] + TASK_STACK_SIZE
    ensures Joined(l, Joint(S.Init(S.Fresh()), I.System(m, 0, map[])))
  {
    S.InitSafe();
    assert forall i :: 1 <= i < S.SLOTS ==> S.Init(S.Fresh()).tasks[i] == S.Zeroed();
  }

  // ------------------------------------------------------------------
  // Coming back
  // ------------------------------------------------------------------

  predicate IsSchedule(act: Act) {
    act.Schedule?
  }

  function Schedules(acts: seq<Act>): nat {
    if acts == [] then 0 else (if IsSchedule(acts[0]) then 1 else 0) + Schedules(acts[1..])
  }

  /** The first time the run switches to task `t`, the machine goes on in context `k`. */
  ghost predicate ComesBack(l: I.Layout, j: Joint, acts: seq<Act>, t: nat, k: Context)
    requires Joined(l, j) && AllMayAct(l, j, acts) && t < |l.hi|
    decreases |acts|
  {
    acts != [] && (
      if acts[0].Schedule? && NextTask(j.table) == t then Running(Switch(acts[0].machine), k, l.hi[t])
      else NextJoined(l, j, acts[0]); ComesBack(l, Next(l, j, acts[0]), acts[1..], t, k))
  }

  /** The task picked goes on in the context it was parked in. */
  lemma PickedResumes(l: I.Layout, j: Joint, m: Machine, t: nat)
    requires Joined(l, j) && MayAct(l, j, Schedule(m)) && NextTask(j.table) == t && t != j.table.current
    ensures t in j.system.parked && Running(Switch(m), j.system.parked[t], l.hi[t])
  {
    PickedIsAlive(j.table);
    assert Away(j.table, t);
    ScheduleIsLegal(l, j, m);
    I.SwitchResumes(l, AtSwitch(l, j, m), t);
  }

  lemma WaitsThroughSchedule(l: I.Layout, j: Joint, m: Machine, t: nat)
    requires Joined(l, j) && MayAct(l, j, Schedule(m)) && t < S.TASK_MAX && j.table.tasks[t].state == S.WAITING
    requires NextTask(j.table) != t
    ensures S.CanSearch(j.table, 0) && S.Schedule(j.table, 0).tasks[t].state == S.WAITING
    ensures t in j.system.parked && t in Switched(l, j, m).parked && Switched(l, j, m).parked[t] == j.system.parked[t]
  {
    assert Away(j.table, t);
    S.ScheduleGetsCloser(j.table, t);
    StillParked(j, m, t);
  }

  lemma WaitsThroughCreate(l: I.Layout, j: Joint, act: Act, t: nat)
    requires Joined(l, j) && act.Create? && MayAct(l, j, act) && t < S.TASK_MAX && j.table.tasks[t].state == S.WAITING
    ensures t in j.system.parked
    ensures var r := Next(l, j, act);
            && r.table.tasks[t].state == S.WAITING
            && t in r.system.parked && r.system.parked[t] == j.system.parked[t]
  {
    assert Away(j.table, t);
    if Starts(act.state) {
      CreationIsLegal(l, j, act);
      assert t != j.table.last;
      I.NextKeepsParked(l, j.system, Creation(l, j, act), t);
    }
  }

  /** Until its turn comes a waiting task that is not killed keeps waiting, parked in the same context. */
  lemma KeepsWaiting(l: I.Layout, j: Joint, act: Act, t: nat)
    requires Joined(l, j) && MayAct(l, j, act) && t < S.TASK_MAX && j.table.tasks[t].state == S.WAITING
    requires act != Kill(t) && !(act.Schedule? && NextTask(j.table) == t)
    ensures t in j.system.parked
    ensures var r := Next(l, j, act);
            && r.table.tasks[t].state == S.WAITING
            && t in r.system.parked && r.system.parked[t] == j.system.parked[t]
  {
    assert Away(j.table, t);
    match act
    case Create(_, _, _, _) => WaitsThroughCreate(l, j, act, t);
    case Kill(_) =>
    case Exit =>
    case Compute(_) =>
    case Schedule(m) => WaitsThroughSchedule(l, j, m, t);
  }

  lemma {:induction false} TurnResumes(l: I.Layout, j: Joint, acts: seq<Act>, t: nat)
    requires Joined(l, j) && AllMayAct(l, j, acts) && t < S.TASK_MAX && j.table.tasks[t].state == S.WAITING
    requires Kill(t) !in acts && j.table.current < S.TASK_MAX && S.Distance(j.table.current, t) <= Schedules(acts)
    ensures t in j.system.parked && ComesBack(l, j, acts, t, j.system.parked[t])
    decreases |acts|
  {
    assert Away(j.table, t);
    var act := acts[0];
    if act.Schedule? && NextTask(j.table) == t {
      PickedResumes(l, j, act.machine, t);
    } else {
      KeepsWaiting(l, j, act, t);
      NextJoined(l, j, act);
      Closer(l, j, act, t);
      TurnResumes(l, Next(l, j, act), acts[1..], t);
    }
  }

  /** Each schedule that does not pick the task brings its turn closer, and nothing else puts it off. */
  lemma Closer(l: I.Layout, j: Joint, act: Act, t: nat)
    requires Joined(l, j) && MayAct(l, j, act) && t < S.TASK_MAX && j.table.tasks[t].state == S.WAITING
    requires act != Kill(t) && !(act.Schedule? && NextTask(j.table) == t)
    ensures var r := Next(l, j, act);
            && r.table.current < S.TASK_MAX
            && S.Distance(r.table.current, t) + (if act.Schedule? then 1 else 0) <= S.Distance(j.table.current, t)
  {
    if act.Schedule? {
      S.ScheduleGetsCloser(j.table, t);
    }
  }

  /**
   * A waiting task that is not killed is resumed within `TASK_MAX - 1` schedules, whatever else happens between them,
   * and in exactly the context it was parked in.
   */
  lemma WaitingComesBack(l: I.Layout, j: Joint, acts: seq<Act>, t: nat)
    requires Joined(l, j) && AllMayAct(l, j, acts) && t < S.TASK_MAX && j.table.tasks[t].state == S.WAITING
    requires Kill(t) !in acts && Schedules(acts) >= S.TASK_MAX - 1
    ensures t in j.system.parked && ComesBack(l, j, acts, t, j.system.parked[t])
  {
    TurnResumes(l, j, acts, t);
  }

  lemma PreemptedWaits(s: S.Sched)
    requires S.Safe(s) && s.tasks[s.current].state == S.RUNNING && NextTask(s) != s.current
    ensures S.CanSearch(s, 0) && S.Schedule(s, 0).tasks[s.current].state == S.WAITING
  {
    S.ScheduleSafe(s);
  }

  /** So a running task that `task_schedule` takes off the processor finds itself where it was. */
  lemma SchedulerGivesBack(l: I.Layout, j: Joint, m: Machine, j': Joint, acts: seq<Act>, t: nat)
    requires Joined(l, j) && MayAct(l, j, Schedule(m)) && j' == Next(l, j, Schedule(m)) && Joined(l, j')
    requires t == j.table.current && NextTask(j.table) != t && j.table.tasks[t].state == S.RUNNING
    requires AllMayAct(l, j', acts) && Kill(t) !in acts && Schedules(acts) >= S.TASK_MAX - 1
    ensures ComesBack(l, j', acts, t, Calling(m))
  {
    assert j'.table.tasks[t].state == S.WAITING by {
      PreemptedWaits(j.table);
    }
    assert t in j'.system.parked && j'.system.parked[t] == Calling(m) by {
      CallerParked(j, m, t);
    }
    WaitingComesBack(l, j', acts, t);
  }

  // ------------------------------------------------------------------
  // A stack used twice
  // ------------------------------------------------------------------

  /** The table while it holds one task besides idle, which runs. */
  predicate OneTask(s: S.Sched, state: S.State, x: uint32) {
    && |s.tasks| == S.SLOTS && s.current == 0 && s.last == 2
    && s.tasks[1].state == state && s.tasks[1].stackFrame == x
  }

  /** The stack of slot 1 is that of the task in slot 2 now. */
  ghost predicate UsedAgain(j: Joint, x: int) {
    && |j.table.tasks| == S.SLOTS && j.table.tasks[1].state == S.EMPTY && j.table.tasks[2].state == S.WAITING
    && j.table.tasks[2].stackFrame == x && j.system.parked.Keys == {2}
  }

  lemma FirstCreated(l: I.Layout, j: Joint, act: Act, j': Joint)
    requires Joined(l, j) && j.table == S.Init(S.Fresh()) && j.system.parked == map[]
    requires act.Create? && act.state == S.WAITING && MayAct(l, j, act) && j' == Next(l, j, act)
    ensures OneTask(j'.table, S.WAITING, l.lo[1]) && j'.system.parked.Keys == {1}
  {
    CreationIsLegal(l, j, act);
    CreationParks(l, j, act);
  }

  lemma KilledThen(l: I.Layout, j: Joint, j': Joint)
    requires Joined(l, j) && OneTask(j.table, S.WAITING, l.lo[1]) && j' == Next(l, j, Kill(1))
    ensures OneTask(j'.table, S.KILLED, l.lo[1]) && j'.system == j.system
  {
  }

  /** Where nothing is parked the current task may compute whatever it likes. */
  lemma NothingGuarded(l: I.Layout, s: I.System, m: Machine)
    requires I.Sound(l, s) && s.parked == map[]
    ensures I.Legal(l, s, I.Computes(m))
  {
  }

  lemma EmptyWithout(parked: map<nat, Context>, slots: set<nat>)
    requires parked.Keys <= slots
    ensures parked - slots == map[]
  {
  }

  lemma SwitchToSelfParksNone(m: Machine, current: nat)
    ensures I.ParkedAfter(I.System(m, current, map[]), current) == map[]
  {
  }

  lemma NoneParked(j: Joint, m: Machine)
    requires S.Safe(j.table) && j.table.tasks[1].state == S.KILLED && j.system.parked.Keys <= {1}
    requires NextTask(j.table) == j.table.current
    ensures j.system.parked - Killed(j.table) == map[] && ParkedNext(j, m) == map[]
  {
    EmptyWithout(j.system.parked, Killed(j.table));
    SwitchToSelfParksNone(m, j.table.current);
    EmptyWithout(map[], Gone(j.table));
  }

  lemma OnlyIdleRuns(s: S.Sched)
    requires S.Safe(s) && s.current == 0 && s.last == 2 && s.tasks[1].state == S.KILLED
    ensures NextTask(s) == 0
  {
    PickedIsAlive(s);
  }

  lemma SomeOwner(s: S.Sched, x: uint32)
    requires S.Owned(s) && x in s.stacks
    ensures exists i :: S.Owns(s, i)
  {
    assert S.HasOwner(s, x);
  }

  lemma NoOwners(s: S.Sched)
    requires S.Owned(s) && forall i :: !S.Owns(s, i)
    ensures s.stacks == {}
  {
    forall x
      ensures x !in s.stacks
    {
      if x in s.stacks {
        SomeOwner(s, x);
      }
    }
  }

  lemma NoStacksLeft(s: S.Sched, r: S.Sched)
    requires S.Safe(s) && s.last == 2 && s.tasks[1].state == S.KILLED && r == S.Schedule(s, 0) && S.Safe(r)
    ensures r.stacks == {}
  {
    forall i: nat | i < S.TASK_MAX
      ensures !S.Owns(r, i)
    {
      AfterSchedule(s, i);
    }
    NoOwners(r);
  }

  /** Nothing is runnable but idle, so the schedule goes back to it; the killed task's stack is given back. */
  lemma KilledPurged(l: I.Layout, j: Joint, m: Machine)
    requires Joined(l, j) && OneTask(j.table, S.KILLED, l.lo[1]) && j.system.parked.Keys <= {1}
    requires AtCall(l, m, 0, 0)
    ensures MayAct(l, j, Schedule(m))
    ensures var r := Next(l, j, Schedule(m));
            && r.table.current == 0 && r.table.last == 2 && r.table.stacks == {}
            && r.table.tasks[1].state == S.EMPTY && r.system.parked == map[]
  {
    OnlyIdleRuns(j.table);
    NoneParked(j, m);
    NothingGuarded(l, Purged(l, j), m);
    AfterSchedule(j.table, 1);
    NoStacksLeft(j.table, S.Schedule(j.table, 0));
  }

  lemma PurgedThenCreated(l: I.Layout, j: Joint, act: Act, m: Machine)
    requires Joined(l, j) && OneTask(j.table, S.KILLED, l.lo[1]) && j.system.parked.Keys <= {1}
    requires AtCall(l, m, 0, 0) && act.Create? && act.state == S.WAITING && 0 < l.lo[1] == l.lo[2]
    requires l.lo[1] + TASK_STACK_SIZE <= l.lo[0] || l.hi[0] <= l.lo[1]
    ensures AllMayAct(l, j, [Schedule(m)] + ([act] + []))
    ensures UsedAgain(After(l, j, [Schedule(m)] + ([act] + [])), l.lo[1])
  {
    KilledPurged(l, j, m);
    var j1 := Next(l, j, Schedule(m));
    NextJoined(l, j, Schedule(m));
    SecondCreated(l, j1, act);
    var j2 := Next(l, j1, act);
    NextJoined(l, j1, act);
    OneMore(l, j1, act, j2, []);
    OneMore(l, j, Schedule(m), j1, [act] + []);
  }

  lemma SecondCreated(l: I.Layout, j: Joint, act: Act)
    requires Joined(l, j) && j.table.last == 2 && j.table.stacks == {} && j.table.tasks[1].state == S.EMPTY
    requires j.system.parked == map[] && act.Create? && act.state == S.WAITING
    requires 0 < l.lo[2] && ClearOfStacks(l, j.table, l.lo[2])
    ensures MayAct(l, j, act) && UsedAgain(Next(l, j, act), l.lo[2])
  {
    CreationIsLegal(l, j, act);
    CreationParks(l, j, act);
  }

  lemma FourActs(a: Act, b: Act, c: Act, d: Act)
    ensures [a, b, c, d] == [a] + ([b] + ([c] + ([d] + [])))
  {
  }

  /** A run, one act at a time. */
  lemma OneMore(l: I.Layout, j: Joint, act: Act, j': Joint, acts: seq<Act>)
    requires Joined(l, j) && MayAct(l, j, act) && j' == Next(l, j, act) && Joined(l, j') && AllMayAct(l, j', acts)
    ensures AllMayAct(l, j, [act] + acts) && After(l, j, [act] + acts) == After(l, j', acts)
  {
    assert ([act] + acts)[1..] == acts;
  }

  /**
   * From `task_init`: a task is created, killed and purged, and another one is created on the same stack. Its context
   * is parked there like any other.
   */
  lemma StackUsedTwice(l: I.Layout, j: Joint, act: Act, m: Machine, acts: seq<Act>)
    requires Joined(l, j) && j.table == S.Init(S.Fresh()) && j.system.parked == map[] && l.lo[1] == l.lo[2]
    requires 0 < l.lo[1] && ClearOfStacks(l, j.table, l.lo[1])
    requires act.Create? && act.state == S.WAITING && AtCall(l, m, 0, 0)
    requires acts == [act, Kill(1), Schedule(m), act]
    ensures AllMayAct(l, j, acts) && UsedAgain(After(l, j, acts), l.lo[1])
  {
    var j1 := Next(l, j, act);
    FirstCreated(l, j, act, j1);
    NextJoined(l, j, act);
    var j2 := Next(l, j1, Kill(1));
    KilledThen(l, j1, j2);
    NextJoined(l, j1, Kill(1));
    PurgedThenCreated(l, j2, act, m);
    OneMore(l, j1, Kill(1), j2, [Schedule(m)] + ([act] + []));
    OneMore(l, j, act, j1, [Kill(1)] + ([Schedule(m)] + ([act] + [])));
    FourActs(act, Kill(1), Schedule(m), act);
  }
}
