/** The task table and the round-robin scheduler, kernel/task.c. */
module Scheduler {
  import opened Words
  import opened TaskLayout

  datatype State = EMPTY | RUNNING | WAITING | PAUSED | KILLED

  datatype Task = Task(id: uint32, kernelEsp: uint32, kernelEbp: uint32, stackFrame: uint32, cr3: uint32, state: State,
                       ticks: uint32)

  const TASK_MAX := 8
  /** Slots the search visits: those of the table and the one after its end. */
  const SLOTS := 9
  const GUARD := 8
  const KMALLOC_FAIL: uint32 := 0xFFFF_FFFF

  function Zeroed(): Task {
    Task(0, 0, 0, 0, 0, EMPTY, 0)
  }

  /** The scheduler's globals, and the stacks the kernel heap has handed out and not got back. */
  datatype Sched = Sched(tasks: seq<Task>, current: nat, last: nat, ready: bool, stacks: set<uint32>)

  // ------------------------------------------------------------------
  // Operations
  // ------------------------------------------------------------------

  predicate Shaped(s: Sched) {
    |s.tasks| == SLOTS && s.current < SLOTS && s.last < SLOTS
  }

  /** `task_create`, given what `kmalloc` returned for the stack and the page directory chosen for the task. */
  function Create(s: Sched, state: State, stack: uint32, cr3: uint32): (r: Sched)
    requires Shaped(s)
    ensures |r.tasks| == SLOTS && r.current == s.current
  {
    if state != PAUSED && state != WAITING then s
    else if stack == KMALLOC_FAIL then s.(tasks := s.tasks[s.last := Zeroed().(id := s.last)])
    else
      var top := Add(stack, TASK_STACK_SIZE);
      var task := Task(s.last, Sub(Sub(top, ISR_REGISTERS), TASK_CONTEXT), top, stack, cr3, state, 0);
      s.(tasks := s.tasks[s.last := task], last := s.last + 1, stacks := s.stacks + {stack})
  }

  predicate Killable(t: Task) {
    t.state == RUNNING || t.state == WAITING || t.state == PAUSED
  }

  /** `task_kill` */
  function Kill(s: Sched, id: uint32): (r: Sched)
    requires Shaped(s)
    ensures Shaped(r)
  {
    if id > TASK_MAX || id == 0 || !Killable(s.tasks[id]) then s
    else s.(tasks := s.tasks[id := s.tasks[id].(state := KILLED)])
  }

  function Cleared(t: Task): Task {
    t.(state := EMPTY, kernelEsp := 0, kernelEbp := 0, stackFrame := 0, cr3 := 0, ticks := 0)
  }

  /** `task_purge` */
  function Purge(s: Sched, id: uint32): (r: Sched)
    requires Shaped(s)
    ensures Shaped(r) && r.current == s.current && r.last == s.last && r.ready == s.ready
  {
    if id > TASK_MAX || id == 0 || s.tasks[id].state != KILLED then s
    else s.(tasks := s.tasks[id := Cleared(s.tasks[id])], stacks := s.stacks - {s.tasks[id].stackFrame})
  }

  /** `task_exit_current` */
  function Exit(s: Sched): (r: Sched)
    requires Shaped(s)
    ensures Shaped(r)
  {
    s.(tasks := s.tasks[s.current := s.tasks[s.current].(state := KILLED)])
  }

  /** The purge loop of `task_schedule`, up to slot `n`: it clears the killed slots but idle's. */
  function PurgeBelow(s: Sched, n: nat): (r: Sched)
    requires Shaped(s) && n <= TASK_MAX
    ensures Shaped(r) && r.current == s.current && r.last == s.last && r.ready == s.ready
    ensures forall i :: 0 <= i < SLOTS ==>
              r.tasks[i] == if 1 <= i < n && s.tasks[i].state == KILLED then Cleared(s.tasks[i]) else s.tasks[i]
  {
    if n == 0 then s else Purge(PurgeBelow(s, n - 1), n - 1)
  }

  predicate Runnable(t: Task) {
    t.state == RUNNING || t.state == WAITING
  }

  /** The slot the search looks at after slot `n`. */
  function After(n: nat): (r: nat)
    requires n < SLOTS
    ensures r < SLOTS
  {
    if n + 1 == SLOTS then 0 else n + 1
  }

  /** How many slots the search looks at before `to`, starting from slot `from`. */
  function Steps(from: nat, to: nat): nat
    requires from < SLOTS && to < SLOTS
  {
    if from <= to then to - from else to + SLOTS - from
  }

  /** The search of `task_schedule`; `w` is any slot that stops it. */
  function Search(tasks: seq<Task>, n: nat, ghost w: nat): (r: nat)
    requires |tasks| == SLOTS && n < SLOTS && w < SLOTS && Runnable(tasks[w])
    ensures r < SLOTS && Runnable(tasks[r])
    ensures forall j :: 0 <= j < SLOTS && Steps(n, j) < Steps(n, r) ==> !Runnable(tasks[j])
    decreases Steps(n, w)
  {
    if Runnable(tasks[n]) then n else Search(tasks, After(n), w)
  }

  /** A slot that cannot run is passed over, and the search gets closer to the one that stops it. */
  lemma SearchOn(tasks: seq<Task>, n: nat, w: nat)
    requires |tasks| == SLOTS && n < SLOTS && w < SLOTS && Runnable(tasks[w]) && !Runnable(tasks[n])
    ensures Search(tasks, n, w) == Search(tasks, After(n), w) && Steps(After(n), w) < Steps(n, w)
  {
  }

  function Ticked(s: Sched): (r: Sched)
    requires Shaped(s)
    ensures Shaped(r)
  {
    s.(tasks := s.tasks[s.current := s.tasks[s.current].(ticks := Add(s.tasks[s.current].ticks, 1))])
  }

  /** The states `task_schedule` gives to the outgoing and the incoming task. */
  function SwitchTo(s: Sched, next: nat): (r: Sched)
    requires Shaped(s) && next < SLOTS
    ensures Shaped(r)
  {
    var prev := s.tasks[s.current];
    var tasks := if prev.state == RUNNING then s.tasks[s.current := prev.(state := WAITING)] else s.tasks;
    s.(tasks := tasks[next := tasks[next].(state := RUNNING)], current := next)
  }

  /** Where the search starts: after the current task's id, which the code takes to wrap at 256. */
  function FirstSlot(id: uint32): uint32 {
    if Add(id, 1) == 256 then 0 else Add(id, 1)
  }

  /** The search starts within the slots, and slot `w` stops it. */
  predicate CanSearch(s: Sched, w: nat)
    requires Shaped(s)
  {
    w < SLOTS && FirstSlot(s.tasks[s.current].id) < SLOTS && Runnable(s.tasks[w])
  }

  /** `task_schedule`, up to the call of `task_switch`. */
  function Schedule(s: Sched, ghost w: nat): (r: Sched)
    requires Shaped(s) && (s.ready ==> CanSearch(s, w))
    ensures Shaped(r)
  {
    if !s.ready then s
    else
      var p := PurgeBelow(Ticked(s), TASK_MAX);
      SwitchTo(p, Search(p.tasks, FirstSlot(p.tasks[p.current].id), w))
  }

  // ------------------------------------------------------------------
  // What every reachable state satisfies
  // ------------------------------------------------------------------

  /**
   * At most the current slot is running, idle can always run, and slots from `last` on, the guard included, are empty.
   */
  predicate Consistent(s: Sched) {
    && Shaped(s) && s.ready && 1 <= s.last <= TASK_MAX && s.current < s.last
    && Runnable(s.tasks[0])
    && (forall i :: 0 <= i < SLOTS && s.tasks[i].state == RUNNING ==> i == s.current)
    && (forall i :: s.last <= i < SLOTS ==> s.tasks[i].state == EMPTY)
    && (forall i :: 0 <= i < s.last ==> s.tasks[i].id == i)
  }

  /** The task in slot `i` owns a stack. */
  predicate Owns(s: Sched, i: int) {
    |s.tasks| == SLOTS && 1 <= i < TASK_MAX && s.tasks[i].state != EMPTY
  }

  /** The used slots but idle's own stacks the heap has handed out, no two of them the same one. */
  ghost predicate OwnsDistinct(s: Sched) {
    && (forall i :: Owns(s, i) ==> s.tasks[i].stackFrame in s.stacks)
    && (forall i, j :: Owns(s, i) && Owns(s, j) && i != j ==> s.tasks[i].stackFrame != s.tasks[j].stackFrame)
  }

  ghost predicate HasOwner(s: Sched, x: uint32) {
    exists i :: Owns(s, i) && s.tasks[i].stackFrame == x
  }

  /** The live stacks are exactly those of the used slots but idle's. */
  ghost predicate Owned(s: Sched) {
    OwnsDistinct(s) && forall x :: x in s.stacks ==> HasOwner(s, x)
  }

  /** Between calls the current task is running, unless it has been killed. */
  ghost predicate Safe(s: Sched) {
    Consistent(s) && Owned(s) && (s.tasks[s.current].state == RUNNING || s.tasks[s.current].state == KILLED)
  }

  // ------------------------------------------------------------------
  // The search
  // ------------------------------------------------------------------

  /** Where the search is after `k` turns. */
  function At(n: nat, k: nat): (r: nat)
    requires n < SLOTS
    ensures r < SLOTS
    decreases k
  {
    if k == 0 then n else At(After(n), k - 1)
  }

  lemma {:induction false} Reaches(n: nat, w: nat)
    requires n < SLOTS && w < SLOTS
    ensures At(n, Steps(n, w)) == w
    decreases Steps(n, w)
  {
    if n != w {
      Reaches(After(n), w);
    }
  }

  /** The search comes to an end exactly when some slot can run. */
  lemma SearchEnds(tasks: seq<Task>, n: nat)
    requires |tasks| == SLOTS && n < SLOTS
    ensures (exists k: nat :: Runnable(tasks[At(n, k)])) <==> exists i :: 0 <= i < SLOTS && Runnable(tasks[i])
  {
    if i: nat :| i < SLOTS && Runnable(tasks[i]) {
      Reaches(n, i);
      assert Runnable(tasks[At(n, Steps(n, i))]);
    }
  }

  // ------------------------------------------------------------------
  // Safety, operation by operation
  // ------------------------------------------------------------------

  /** `task_create` within the table, with a stack the heap has not handed out to another task. */
  predicate CanCreate(s: Sched, state: State, stack: uint32) {
    (state == PAUSED || state == WAITING) ==>
      s.last < TASK_MAX && stack != 0 && stack != KMALLOC_FAIL && stack !in s.stacks
  }

  /** Changing neither who owns a stack nor which one. */
  lemma SameOwners(s: Sched, r: Sched)
    requires Owned(s) && r.stacks == s.stacks && |r.tasks| == SLOTS
    requires forall i {:trigger Owns(r, i)} {:trigger Owns(s, i)} :: Owns(r, i) <==> Owns(s, i)
    requires forall i :: Owns(s, i) ==> r.tasks[i].stackFrame == s.tasks[i].stackFrame
    ensures Owned(r)
  {
    assert OwnsDistinct(r);
    forall x | x in r.stacks
      ensures HasOwner(r, x)
    {
      assert HasOwner(s, x);
      var i :| Owns(s, i) && s.tasks[i].stackFrame == x;
      assert Owns(r, i);
    }
  }

  lemma CreateOwned(s: Sched, state: State, stack: uint32, cr3: uint32)
    requires Consistent(s) && Owned(s) && CanCreate(s, state, stack) && (state == PAUSED || state == WAITING)
    ensures Owned(Create(s, state, stack, cr3))
  {
    var r := Create(s, state, stack, cr3);
    assert Owns(r, s.last);
    forall x | x in r.stacks
      ensures HasOwner(r, x)
    {
      if x == stack {
        assert r.tasks[s.last].stackFrame == x;
      } else {
        assert HasOwner(s, x);
        var i :| Owns(s, i) && s.tasks[i].stackFrame == x;
        assert Owns(r, i);
      }
    }
    assert forall i :: Owns(r, i) && i != s.last ==> Owns(s, i) && r.tasks[i] == s.tasks[i];
  }

  lemma CreateSafe(s: Sched, state: State, stack: uint32, cr3: uint32)
    requires Safe(s) && CanCreate(s, state, stack)
    ensures Safe(Create(s, state, stack, cr3))
  {
    if state == PAUSED || state == WAITING {
      CreateOwned(s, state, stack, cr3);
    }
  }

  /** Once the table is full, creating a task takes the slot after its end. */
  lemma GuardStaysEmpty(s: Sched, state: State, stack: uint32, cr3: uint32)
    requires Safe(s) && (state == PAUSED || state == WAITING) && stack != KMALLOC_FAIL
    ensures Create(s, state, stack, cr3).tasks[GUARD].state == EMPTY <==> s.last < TASK_MAX
  {
  }

  lemma KillSafe(s: Sched, id: uint32)
    requires Safe(s)
    ensures Safe(Kill(s, id))
  {
    SameOwners(s, Kill(s, id));
  }

  lemma ExitSafe(s: Sched)
    requires Safe(s) && s.current != 0
    ensures Safe(Exit(s))
  {
    SameOwners(s, Exit(s));
  }

  /** A purge gives back the stack of the task it purges, which the heap had handed out, and no other. */
  lemma PurgeReturnsStack(s: Sched, id: uint32)
    requires Consistent(s) && Owned(s)
    ensures Consistent(Purge(s, id)) && Owned(Purge(s, id))
    ensures Purge(s, id) != s ==>
              var x := s.tasks[id].stackFrame; x in s.stacks && Purge(s, id).stacks == s.stacks - {x}
  {
    var r := Purge(s, id);
    if id <= TASK_MAX && id != 0 && s.tasks[id].state == KILLED {
      assert Owns(s, id);
      assert forall i :: Owns(r, i) ==> Owns(s, i) && i != id && r.tasks[i] == s.tasks[i];
      forall x | x in r.stacks
        ensures HasOwner(r, x)
      {
        assert HasOwner(s, x);
        var i :| Owns(s, i) && s.tasks[i].stackFrame == x;
        assert Owns(r, i);
      }
    }
  }

  lemma {:induction false} PurgeBelowConsistent(s: Sched, n: nat)
    requires Consistent(s) && Owned(s) && n <= TASK_MAX
    ensures Consistent(PurgeBelow(s, n)) && Owned(PurgeBelow(s, n))
  {
    if n > 0 {
      PurgeBelowConsistent(s, n - 1);
      PurgeReturnsStack(PurgeBelow(s, n - 1), n - 1);
    }
  }

  /** The slot `task_schedule` goes to: the first one after the current that can run, the current one last. */
  predicate FirstAfter(s: Sched, next: nat)
    requires Shaped(s)
  {
    && next < SLOTS && Runnable(s.tasks[next])
    && forall j :: 0 <= j < SLOTS && Steps(After(s.current), j) < Steps(After(s.current), next) ==>
       !Runnable(s.tasks[j])
  }

  lemma ScheduleNext(s: Sched)
    requires Safe(s)
    ensures CanSearch(s, 0) && FirstAfter(s, Schedule(s, 0).current)
  {
    var p := PurgeBelow(Ticked(s), TASK_MAX);
    assert forall i :: 0 <= i < SLOTS ==> Runnable(p.tasks[i]) == Runnable(s.tasks[i]);
  }

  /** The table once the killed tasks have been purged. */
  lemma PurgedConsistent(s: Sched, p: Sched)
    requires Safe(s) && p == PurgeBelow(Ticked(s), TASK_MAX)
    ensures Consistent(p) && Owned(p) && forall i :: 0 <= i < SLOTS ==> p.tasks[i].state != KILLED
  {
    var t := Ticked(s);
    SameOwners(s, t);
    PurgeBelowConsistent(t, TASK_MAX);
  }

  /** After `task_schedule` exactly the current slot is running, and no slot is killed. */
  lemma ScheduleSafe(s: Sched)
    requires Safe(s)
    ensures CanSearch(s, 0) && Safe(Schedule(s, 0))
    ensures var r := Schedule(s, 0);
            forall i :: 0 <= i < SLOTS ==>
              (r.tasks[i].state == RUNNING <==> i == r.current) && r.tasks[i].state != KILLED
  {
    var p := PurgeBelow(Ticked(s), TASK_MAX);
    PurgedConsistent(s, p);
    SwitchSafe(p, Search(p.tasks, FirstSlot(p.tasks[p.current].id), 0));
  }

  lemma SwitchOwned(p: Sched, next: nat)
    requires Shaped(p) && Owned(p) && next < SLOTS && Runnable(p.tasks[next])
    ensures Owned(SwitchTo(p, next))
  {
    SameOwners(p, SwitchTo(p, next));
  }

  /** Switching to a task that can run, once no task is killed. */
  lemma SwitchSafe(p: Sched, next: nat)
    requires Consistent(p) && Owned(p) && next < SLOTS && Runnable(p.tasks[next])
    requires forall i :: 0 <= i < SLOTS ==> p.tasks[i].state != KILLED
    ensures Safe(SwitchTo(p, next))
    ensures var r := SwitchTo(p, next);
            forall i :: 0 <= i < SLOTS ==> (r.tasks[i].state == RUNNING <==> i == next) && r.tasks[i].state != KILLED
  {
    hide Owned;
    SwitchOwned(p, next);
  }

  // ------------------------------------------------------------------
  // What each call changes, field by field
  // ------------------------------------------------------------------

  /** The two structures differ in the state and the ticks at most. */
  predicate SameTask(a: Task, b: Task) {
    a.id == b.id && a.kernelEsp == b.kernelEsp && a.kernelEbp == b.kernelEbp && a.stackFrame == b.stackFrame &&
    a.cr3 == b.cr3
  }

  /** Nothing but the tasks in the table, and not how many slots it has. */
  predicate OnlyTasksChange(s: Sched, r: Sched) {
    && |r.tasks| == |s.tasks| == SLOTS
    && r.current == s.current && r.last == s.last && r.ready == s.ready && r.stacks == s.stacks
  }

  /**
   * `task_kill` marks a task that runs, waits or is paused, whichever slot from 1 to 8 it is in, and touches nothing
   * else; for any other id it touches nothing.
   */
  lemma KillMarks(s: Sched, id: uint32, i: nat)
    requires Shaped(s) && i < SLOTS
    ensures var r := Kill(s, id); var a, b := s.tasks[i], r.tasks[i];
            && OnlyTasksChange(s, r) && SameTask(a, b) && b.ticks == a.ticks
            && b.state == if i == id && i != 0 && (a.state == RUNNING || a.state == WAITING || a.state == PAUSED)
              then KILLED else a.state
  {
  }

  /** `task_exit_current` marks the current task, and touches nothing else. */
  lemma ExitMarks(s: Sched, i: nat)
    requires Shaped(s) && i < SLOTS
    ensures var r := Exit(s); var a, b := s.tasks[i], r.tasks[i];
            && OnlyTasksChange(s, r) && SameTask(a, b) && b.ticks == a.ticks
            && b.state == if i == s.current then KILLED else a.state
  {
  }

  /** `task_purge` gives back the stack of a killed task and clears all of its structure but the id, and no other. */
  lemma PurgeClears(s: Sched, id: uint32, i: nat)
    requires Shaped(s) && i < SLOTS
    ensures var r := Purge(s, id); var purged := 1 <= id <= 8 && s.tasks[id].state == KILLED;
            && r.current == s.current && r.last == s.last && r.ready == s.ready && |r.tasks| == SLOTS
            && r.tasks[i] == (if purged && i == id then Task(s.tasks[i].id, 0, 0, 0, 0, EMPTY, 0) else s.tasks[i])
            && forall x :: x in r.stacks <==> x in s.stacks && !(purged && x == s.tasks[id].stackFrame)
  {
  }

  /** `task_init` makes idle the running task, and touches nothing else. */
  lemma InitStarts(s: Sched, i: nat)
    requires Shaped(s) && i < SLOTS
    ensures var r := Init(s); var a, b := s.tasks[i], r.tasks[i];
            && r.current == 0 && r.ready && r.last == s.last && r.stacks == s.stacks && |r.tasks| == SLOTS
            && SameTask(a, b) && b.ticks == a.ticks && b.state == if i == 0 then RUNNING else a.state
  {
  }

  /**
   * `task_create` fills the slot after the last, with the stack pointer below the two frames on the stack, and touches
   * no other. A refused stack leaves that slot cleared and still the next one; a bad state leaves everything.
   */
  lemma CreateFills(s: Sched, state: State, stack: uint32, cr3: uint32, i: nat)
    requires Shaped(s) && i < SLOTS
    ensures var r := Create(s, state, stack, cr3); var top := Add(stack, 8192);
            var tried := state == PAUSED || state == WAITING; var done := tried && stack != 0xFFFF_FFFF;
            && |r.tasks| == SLOTS && r.current == s.current && r.ready == s.ready
            && r.last == (if done then s.last + 1 else s.last)
            && (forall x :: x in r.stacks <==> x in s.stacks || (done && x == stack))
            && r.tasks[i] ==
               if i != s.last || !tried then s.tasks[i]
               else if done then Task(s.last, Sub(Sub(top, 52), 20), top, stack, cr3, state, 0)
               else Task(s.last, 0, 0, 0, 0, EMPTY, 0)
  {
  }

  /** The task `task_schedule` finds killed in slot `i`, and purges. */
  predicate Purges(s: Sched, i: nat)
    requires Shaped(s)
  {
    1 <= i < TASK_MAX && s.tasks[i].state == KILLED
  }

  lemma {:induction false} PurgedStacks(s: Sched, n: nat, x: uint32)
    requires Shaped(s) && n <= TASK_MAX
    ensures x in PurgeBelow(s, n).stacks <==>
            x in s.stacks && forall i: nat :: i < n && Purges(s, i) ==> s.tasks[i].stackFrame != x
  {
    if n > 0 {
      PurgedStacks(s, n - 1, x);
      PurgeClears(PurgeBelow(s, n - 1), n - 1, n - 1);
      assert forall i: nat :: i < n && Purges(s, i) ==> i < n - 1 || i == n - 1;
      assert Purges(s, n - 1) <==> n > 1 && s.tasks[n - 1].state == KILLED;
    }
  }

  /** The stacks `task_schedule` gives back are those of the tasks it purges. */
  lemma ScheduleGivesBack(s: Sched, w: nat, x: uint32)
    requires Shaped(s) && s.ready && CanSearch(s, w)
    ensures x in Schedule(s, w).stacks <==>
            x in s.stacks && forall i: nat :: Purges(s, i) ==> s.tasks[i].stackFrame != x
  {
    var t := Ticked(s);
    PurgedStacks(t, TASK_MAX, x);
    assert forall i: nat :: i < TASK_MAX ==> (Purges(t, i) <==> Purges(s, i)) && SameTask(s.tasks[i], t.tasks[i]);
  }

  /** The slot picked is the first one that can run, going round from the one after the current task's id. */
  lemma SchedulePicks(s: Sched, w: nat)
    requires Shaped(s) && s.ready && CanSearch(s, w)
    ensures var next, first := Schedule(s, w).current, FirstSlot(s.tasks[s.current].id);
            && next < SLOTS && Runnable(s.tasks[next])
            && forall j :: 0 <= j < SLOTS && Steps(first, j) < Steps(first, next) ==> !Runnable(s.tasks[j])
  {
    var p := PurgeBelow(Ticked(s), TASK_MAX);
    assert forall i :: 0 <= i < SLOTS ==> Runnable(p.tasks[i]) == Runnable(s.tasks[i]);
  }

  /**
   * What `task_schedule` does to each slot. A killed task's structure is cleared but for its id. In any other slot the
   * id, the stack pointers, the stack and the directory stay; one tick is counted for the task that was current; that
   * task waits if it was running and another one was picked; and the task picked runs.
   */
  lemma ScheduleKeeps(s: Sched, w: nat, i: nat)
    requires Shaped(s) && s.ready && CanSearch(s, w) && i < SLOTS
    ensures var r := Schedule(s, w); var a, b := s.tasks[i], r.tasks[i];
            && r.last == s.last && r.ready == s.ready && |r.tasks| == SLOTS
            && if Purges(s, i) then b == Task(a.id, 0, 0, 0, 0, EMPTY, 0)
               else
                 && SameTask(a, b)
                 && b.ticks == (if i == s.current then Add(a.ticks, 1) else a.ticks)
                 && b.state == if i == r.current then RUNNING
                   else if i == s.current && a.state == RUNNING then WAITING else a.state
  {
    SchedulePicks(s, w);
    var t := Ticked(s);
    var p := PurgeBelow(t, TASK_MAX);
    assert p.tasks[i] == if 1 <= i < TASK_MAX && t.tasks[i].state == KILLED then Cleared(t.tasks[i]) else t.tasks[i];
    SwitchKeeps(p, Schedule(s, w).current, i);
  }

  lemma SwitchKeeps(p: Sched, next: nat, i: nat)
    requires Shaped(p) && next < SLOTS && i < SLOTS
    ensures var r := SwitchTo(p, next); var a, b := p.tasks[i], r.tasks[i];
            && r.current == next && r.last == p.last && r.ready == p.ready && SameTask(a, b) && b.ticks == a.ticks
            && b.state == if i == next then RUNNING
              else if i == p.current && a.state == RUNNING then WAITING else a.state
  {
  }

  /** Before `task_init` it does nothing. */
  lemma ScheduleWaits(s: Sched, w: nat)
    requires Shaped(s) && !s.ready
    ensures Schedule(s, w) == s
  {
  }

  // ------------------------------------------------------------------
  // Runs
  // ------------------------------------------------------------------

  datatype Op = DoCreate(state: State, stack: uint32, cr3: uint32) | DoKill(id: uint32) | DoExit | DoSchedule

  /** What the callers must see to: creation within the table, and idle does not exit. */
  ghost predicate Legal(s: Sched, op: Op) {
    match op
    case DoCreate(state, stack, cr3) => CanCreate(s, state, stack)
    case DoKill(id) => true
    case DoExit => s.current != 0
    case DoSchedule => true
  }

  ghost function Step(s: Sched, op: Op): (r: Sched)
    requires Safe(s) && Legal(s, op)
    ensures Safe(r)
  {
    match op
    case DoCreate(state, stack, cr3) => CreateSafe(s, state, stack, cr3); Create(s, state, stack, cr3)
    case DoKill(id) => KillSafe(s, id); Kill(s, id)
    case DoExit => ExitSafe(s); Exit(s)
    case DoSchedule => ScheduleSafe(s); Schedule(s, 0)
  }

  ghost predicate LegalRun(s: Sched, ops: seq<Op>)
    requires Safe(s)
    decreases |ops|
  {
    ops == [] || (Legal(s, ops[0]) && LegalRun(Step(s, ops[0]), ops[1..]))
  }

  /** The table before `task_init`, and after it. */
  function Init(s: Sched): Sched
    requires Shaped(s)
  {
    s.(tasks := s.tasks[0 := s.tasks[0].(state := RUNNING)], current := 0, ready := true)
  }

  function Fresh(): Sched {
    Sched(seq(SLOTS, (_: int) => Zeroed()), 0, 1, false, {})
  }

  lemma InitSafe()
    ensures Safe(Init(Fresh()))
  {
    assert forall i :: 0 <= i < SLOTS ==> Fresh().tasks[i] == Zeroed();
  }

  ghost function Final(s: Sched, ops: seq<Op>): (r: Sched)
    requires Safe(s) && LegalRun(s, ops)
    ensures Safe(r)
    decreases |ops|
  {
    if ops == [] then s else Final(Step(s, ops[0]), ops[1..])
  }

  // ------------------------------------------------------------------
  // Bounded fairness
  // ------------------------------------------------------------------

  /** How far slot `t` is ahead of slot `c` in the table. */
  function Distance(c: nat, t: nat): (d: nat)
    requires c < TASK_MAX && t < TASK_MAX
    ensures d < TASK_MAX && (d == 0 <==> c == t)
  {
    if c <= t then t - c else t + TASK_MAX - c
  }

  /** Each call of `task_schedule` brings a waiting task closer to its turn. */
  lemma ScheduleGetsCloser(s: Sched, t: nat)
    requires Safe(s) && t < TASK_MAX && s.tasks[t].state == WAITING
    ensures CanSearch(s, 0) && Schedule(s, 0).current < TASK_MAX
    ensures var r := Schedule(s, 0);
            r.current == t || (r.tasks[t].state == WAITING && Distance(r.current, t) < Distance(s.current, t))
  {
    ScheduleNext(s);
    ScheduleSafe(s);
    var r := Schedule(s, 0);
    assert Runnable(s.tasks[r.current]) && s.tasks[GUARD].state == EMPTY;
    if r.current != t {
      assert Steps(After(s.current), r.current) <= Steps(After(s.current), t);
    }
  }

  /** Nothing else changes whose turn it is, or keeps a waiting task from running unless it kills that task. */
  lemma OthersSpare(s: Sched, op: Op, t: nat)
    requires Safe(s) && Legal(s, op) && t < TASK_MAX && s.tasks[t].state == WAITING
    requires op != DoKill(t) && op != DoSchedule
    ensures Step(s, op).current == s.current && Step(s, op).tasks[t].state == WAITING
  {
  }

  function Schedules(ops: seq<Op>): nat {
    if ops == [] then 0 else (if ops[0].DoSchedule? then 1 else 0) + Schedules(ops[1..])
  }

  /** Slot `t` is the current one at some point of the run. */
  ghost predicate GetsTurn(s: Sched, ops: seq<Op>, t: nat)
    requires Safe(s) && LegalRun(s, ops)
    decreases |ops|
  {
    s.current == t || (ops != [] && GetsTurn(Step(s, ops[0]), ops[1..], t))
  }

  lemma {:induction false} TurnComes(s: Sched, ops: seq<Op>, t: nat)
    requires Safe(s) && LegalRun(s, ops) && t < TASK_MAX && s.tasks[t].state == WAITING
    requires DoKill(t) !in ops && Distance(s.current, t) <= Schedules(ops)
    ensures GetsTurn(s, ops, t)
    decreases |ops|
  {
    var op, s' := ops[0], Step(s, ops[0]);
    if op == DoSchedule {
      ScheduleGetsCloser(s, t);
      if s'.current != t {
        TurnComes(s', ops[1..], t);
      }
    } else {
      OthersSpare(s, op, t);
      TurnComes(s', ops[1..], t);
    }
  }

  /** A waiting task that is not killed runs within `TASK_MAX - 1` calls of `task_schedule`, whatever else happens. */
  lemma BoundedFairness(s: Sched, ops: seq<Op>, t: nat)
    requires Safe(s) && LegalRun(s, ops) && t < TASK_MAX && s.tasks[t].state == WAITING
    requires DoKill(t) !in ops && Schedules(ops) >= TASK_MAX - 1
    ensures GetsTurn(s, ops, t)
  {
    TurnComes(s, ops, t);
  }

  // ------------------------------------------------------------------
  // A killed task is gone
  // ------------------------------------------------------------------

  /** Slot `t` has been given out, and its task killed or purged since. */
  predicate Dead(s: Sched, t: nat) {
    && |s.tasks| == SLOTS && 1 <= t < TASK_MAX && t < s.last
    && (s.tasks[t].state == KILLED || s.tasks[t].state == EMPTY)
  }

  /** Whatever happens next. */
  lemma StaysDead(s: Sched, op: Op, t: nat)
    requires Safe(s) && Legal(s, op) && Dead(s, t)
    ensures Dead(Step(s, op), t)
    ensures op.DoSchedule? || s.tasks[t].state == EMPTY ==> Step(s, op).tasks[t].state == EMPTY
    ensures s.current != t ==> Step(s, op).current != t
  {
    match op
    case DoCreate(state, stack, cr3) => CreateFills(s, state, stack, cr3, t);
    case DoKill(id) => KillMarks(s, id, t);
    case DoExit => ExitMarks(s, t);
    case DoSchedule =>
      ScheduleSafe(s);
      ScheduleKeeps(s, 0, t);
      ScheduleNext(s);
  }

  lemma {:induction false} DeadForGood(s: Sched, ops: seq<Op>, t: nat)
    requires Safe(s) && LegalRun(s, ops) && Dead(s, t)
    ensures Dead(Final(s, ops), t)
    ensures Schedules(ops) > 0 || s.tasks[t].state == EMPTY ==> Final(s, ops).tasks[t].state == EMPTY
    ensures Schedules(ops) > 0 || s.current != t ==> Final(s, ops).current != t
    decreases |ops|
  {
    if ops != [] {
      StaysDead(s, ops[0], t);
      DeadForGood(Step(s, ops[0]), ops[1..], t);
    }
  }

  /**
   * After `task_kill` of a task other than the current one no run makes it current again; after that of the current
   * one none does once `task_schedule` has been called. The first schedule clears its slot, which stays so.
   */
  lemma KilledNeverRuns(s: Sched, t: nat, s': Sched, ops: seq<Op>)
    requires Safe(s) && 1 <= t < TASK_MAX && Killable(s.tasks[t]) && s' == Kill(s, t) && Safe(s') && LegalRun(s', ops)
    ensures var r := Final(s', ops);
            && (s.current != t || Schedules(ops) > 0 ==> r.current != t)
            && r.tasks[t].state == if Schedules(ops) > 0 then EMPTY else KILLED
  {
    KillMarks(s, t, t);
    DeadForGood(s', ops, t);
    if Schedules(ops) == 0 {
      StaysKilled(s', ops, t);
    }
  }

  lemma {:induction false} StaysKilled(s: Sched, ops: seq<Op>, t: nat)
    requires Safe(s) && LegalRun(s, ops) && Dead(s, t) && s.tasks[t].state == KILLED && Schedules(ops) == 0
    ensures Final(s, ops).tasks[t].state == KILLED
    decreases |ops|
  {
    if ops != [] {
      StaysDead(s, ops[0], t);
      StaysKilled(Step(s, ops[0]), ops[1..], t);
    }
  }

  /** Nor does a task that has exited run again once `task_schedule` has been called. */
  lemma ExitedNeverRuns(s: Sched, t: nat, s': Sched, ops: seq<Op>)
    requires Safe(s) && t == s.current != 0 && s' == Exit(s) && Safe(s') && LegalRun(s', ops) && Schedules(ops) > 0
    ensures Final(s', ops).current != t && Final(s', ops).tasks[t].state == EMPTY
  {
    ExitMarks(s, t);
    DeadForGood(s', ops, t);
  }

  // ------------------------------------------------------------------
  // Where the design has no answer
  // ------------------------------------------------------------------

  /** A stack for the task in slot `i + 1`, far from the others. */
  function Stack(i: nat): (r: uint32)
    requires i < TASK_MAX
    ensures r != 0 && r != KMALLOC_FAIL
  {
    TASK_STACK_SIZE * (i + 1)
  }

  /** Creates for the slots behind the `i`-th up to the end of the table. */
  function CreatesFrom(i: nat): seq<Op>
    requires i < TASK_MAX
    decreases TASK_MAX - i
  {
    if i + 1 == TASK_MAX then [] else [DoCreate(WAITING, Stack(i), 0)] + CreatesFrom(i + 1)
  }

  lemma {:induction false} FillsFrom(s: Sched, i: nat, ops: seq<Op>)
    requires Safe(s) && i < TASK_MAX && s.last == i + 1 && (forall x :: x in s.stacks ==> x < Stack(i))
    requires ops == CreatesFrom(i)
    ensures LegalRun(s, ops) && Final(s, ops).last == TASK_MAX
    decreases TASK_MAX - i
  {
    if i + 1 < TASK_MAX {
      var rest := CreatesFrom(i + 1);
      assert ops[0] == DoCreate(WAITING, Stack(i), 0) && ops[1..] == rest;
      CreateSafe(s, WAITING, Stack(i), 0);
      FillsFrom(Create(s, WAITING, Stack(i), 0), i + 1, rest);
    }
  }

  /** From `task_init` on, seven creates fill the table, and one more takes the slot after its end. */
  lemma TableFills(ops: seq<Op>, stack: uint32, cr3: uint32)
    requires ops == CreatesFrom(0) && stack != KMALLOC_FAIL
    ensures Safe(Init(Fresh())) && LegalRun(Init(Fresh()), ops)
    ensures var s := Final(Init(Fresh()), ops);
            s.last == TASK_MAX && Create(s, WAITING, stack, cr3).tasks[GUARD].state == WAITING
  {
    InitSafe();
    FillsFrom(Init(Fresh()), 0, ops);
  }

  /** When idle exits with no other task to run, the search for the next task never ends. */
  lemma IdleExitHangs(s: Sched, k: nat)
    requires Safe(s) && s.current == 0 && forall i :: 1 <= i < SLOTS ==> !Runnable(s.tasks[i])
    ensures !Runnable(PurgeBelow(Ticked(Exit(s)), TASK_MAX).tasks[At(1, k)])
  {
    var p := PurgeBelow(Ticked(Exit(s)), TASK_MAX);
    assert forall i :: 0 <= i < SLOTS ==> !Runnable(p.tasks[i]);
  }

  /** Idle is the only task when the scheduler starts, so that its exit hangs from the start. */
  lemma IdleExitHangsAtStart(k: nat)
    ensures !Runnable(PurgeBelow(Ticked(Exit(Init(Fresh()))), TASK_MAX).tasks[At(1, k)])
  {
    InitSafe();
    IdleExitHangs(Init(Fresh()), k);
  }

  /**
   * A new task is given up exactly for the stack address 0xFFFFFFFF. Whatever `kmalloc` returns is a multiple of four,
   * and its failure value, 0, is taken for a stack.
   */
  lemma FailedStackUnnoticed(s: Sched, state: State, stack: uint32, cr3: uint32)
    requires Safe(s) && (state == PAUSED || state == WAITING)
    ensures Create(s, state, stack, cr3).last == s.last <==> stack == KMALLOC_FAIL
    ensures stack % 4 == 0 ==> Create(s, state, stack, cr3).last == s.last + 1
    ensures stack == 0 ==> Create(s, state, stack, cr3).tasks[s.last].state == state
  {
  }

  // ------------------------------------------------------------------
  // The code
  // ------------------------------------------------------------------

  /**
   * What `task_create` returns: 1 for a bad starting state, 0 when the stack is refused, or the new task's structure.
   */
  datatype Creation = BadState | NoStack | Created(slot: nat)

  class TaskTable {
    const tasks: array<Task>
    var currentTask: nat
    var lastTaskId: nat
    var schedulerReady: bool
    ghost var stacks: set<uint32>

    ghost function Abs(): Sched
      reads this, tasks
    {
      Sched(tasks[..], currentTask, lastTaskId, schedulerReady, stacks)
    }

    /** The globals as the kernel image holds them. */
    constructor ()
      ensures fresh(tasks)
      ensures Abs() == Fresh()
    {
      tasks := new Task[SLOTS](_ => Zeroed());
      currentTask := 0;
      lastTaskId := 1;
      schedulerReady := false;
      stacks := {};
      new;
      assert tasks[..] == Fresh().tasks;
    }

    method TaskInit()
      requires Shaped(Abs())
      modifies this, tasks
      ensures Abs() == Init(old(Abs()))
    {
      tasks[0] := tasks[0].(state := RUNNING);
      currentTask := 0;
      schedulerReady := true;
    }

    method TaskCreate(state: State, kernelStack: uint32, cr3: uint32) returns (r: Creation)
      requires Shaped(Abs())
      modifies this, tasks
      ensures Abs() == Create(old(Abs()), state, kernelStack, cr3)
      ensures r.BadState? <==> state != PAUSED && state != WAITING
      ensures r.NoStack? <==> !r.BadState? && kernelStack == KMALLOC_FAIL
      ensures r.Created? ==> r.slot == old(lastTaskId) && lastTaskId == r.slot + 1
    {
      if state != PAUSED && state != WAITING {
        return BadState;
      }
      var taskId := lastTaskId;
      tasks[taskId] := Zeroed();
      tasks[taskId] := tasks[taskId].(id := taskId);
      if kernelStack == KMALLOC_FAIL {
        return NoStack;
      }
      tasks[taskId] := tasks[taskId].(stackFrame := kernelStack);
      tasks[taskId] := tasks[taskId].(kernelEsp := Add(kernelStack, TASK_STACK_SIZE),
        kernelEbp := Add(kernelStack, TASK_STACK_SIZE));
      tasks[taskId] := tasks[taskId].(cr3 := cr3);
      tasks[taskId] := tasks[taskId].(kernelEsp := Sub(tasks[taskId].kernelEsp, ISR_REGISTERS));
      tasks[taskId] := tasks[taskId].(kernelEsp := Sub(tasks[taskId].kernelEsp, TASK_CONTEXT));
      tasks[taskId] := tasks[taskId].(state := state);
      lastTaskId := lastTaskId + 1;
      stacks := stacks + {kernelStack};
      return Created(taskId);
    }

    method TaskKill(taskId: uint32) returns (done: bool)
      requires Shaped(Abs())
      modifies tasks
      ensures Abs() == Kill(old(Abs()), taskId)
      ensures done <==> 1 <= taskId <= TASK_MAX && Killable(old(tasks[..])[taskId])
    {
      if taskId < 0 || taskId > TASK_MAX {
        return false;
      }
      if taskId == 0 {
        return false;
      }
      if tasks[taskId].state == EMPTY {
        return false;
      }
      if tasks[taskId].state != RUNNING && tasks[taskId].state != WAITING && tasks[taskId].state != PAUSED {
        return false;
      }
      tasks[taskId] := tasks[taskId].(state := KILLED);
      return true;
    }

    method TaskPurge(taskId: uint32) returns (done: bool)
      requires Shaped(Abs())
      modifies this`stacks, tasks
      ensures Abs() == Purge(old(Abs()), taskId)
      ensures done <==> 1 <= taskId <= TASK_MAX && old(tasks[..])[taskId].state == KILLED
    {
      if taskId < 0 || taskId > TASK_MAX {
        return false;
      }
      if taskId == 0 {
        return false;
      }
      if tasks[taskId].state != KILLED {
        return false;
      }
      tasks[taskId] := tasks[taskId].(state := EMPTY);
      stacks := stacks - {tasks[taskId].stackFrame};
      tasks[taskId] := tasks[taskId].(kernelEsp := 0, kernelEbp := 0, stackFrame := 0, cr3 := 0, ticks := 0);
      return true;
    }

    method TaskExitCurrent()
      requires Shaped(Abs())
      modifies tasks
      ensures Abs() == Exit(old(Abs()))
    {
      tasks[currentTask] := tasks[currentTask].(state := KILLED);
    }

    /** The purge loop of `task_schedule`. */
    method PurgeKilled()
      requires Shaped(Abs())
      modifies this`stacks, tasks
      ensures Abs() == PurgeBelow(old(Abs()), TASK_MAX)
    {
      var taskId := 0;
      while taskId < TASK_MAX
        invariant 0 <= taskId <= TASK_MAX
        invariant Abs() == PurgeBelow(old(Abs()), taskId)
      {
        if tasks[taskId].state == KILLED {
          var _ := TaskPurge(taskId);
        }
        taskId := taskId + 1;
      }
    }

    /** The search loop of `task_schedule`, from the slot after the current task's id. */
    method FindNext(ghost w: nat) returns (nextTaskId: nat)
      requires Shaped(Abs()) && CanSearch(Abs(), w)
      ensures nextTaskId == Search(tasks[..], FirstSlot(tasks[currentTask].id), w)
    {
      ghost var slots, found := tasks[..], Search(tasks[..], FirstSlot(tasks[currentTask].id), w);
      nextTaskId := Add(tasks[currentTask].id, 1);
      if nextTaskId == 256 {
        nextTaskId := 0;
      }
      while tasks[nextTaskId].state == EMPTY || tasks[nextTaskId].state == PAUSED || tasks[nextTaskId].state == KILLED
        invariant nextTaskId < SLOTS
        invariant found == Search(slots, nextTaskId, w)
        decreases Steps(nextTaskId, w)
      {
        ghost var n := nextTaskId;
        SearchOn(slots, n, w);
        nextTaskId := nextTaskId + 1;
        if nextTaskId == 9 {
          nextTaskId := 0;
        }
        assert nextTaskId == After(n);
      }
    }

    /** Everything `task_schedule` does before it calls `task_switch(prev, next)`. */
    method TaskSchedule(ghost w: nat) returns (prev: nat, next: nat)
      requires Shaped(Abs()) && (schedulerReady ==> CanSearch(Abs(), w))
      modifies this, tasks
      ensures Abs() == Schedule(old(Abs()), w)
      ensures prev == old(currentTask) && next == currentTask
    {
      prev, next := currentTask, currentTask;
      if !schedulerReady {
        return;
      }
      tasks[currentTask] := tasks[currentTask].(ticks := Add(tasks[currentTask].ticks, 1));
      assert Abs() == Ticked(old(Abs()));
      PurgeKilled();
      ghost var purged := Abs();
      next := FindNext(w);
      currentTask := next;
      if tasks[prev].state == RUNNING {
        tasks[prev] := tasks[prev].(state := WAITING);
      }
      tasks[next] := tasks[next].(state := RUNNING);
      assert Abs() == SwitchTo(purged, next);
    }
  }
}
