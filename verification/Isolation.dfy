/** Many tasks on one processor. */
module Isolation {
  import opened Words
  import opened HeapMemory
  import opened TaskLayout
  import opened TaskSwitch

  // ------------------------------------------------------------------
  // Many tasks
  // ------------------------------------------------------------------

  /**
   * Where the task table starts, and the stack each slot's task gets: from `lo` up to `hi`. The table gives each slot
   * out once; two slots whose tasks are not alive at the same time may have the same stack, or ones that overlap.
   */
  datatype Layout = Layout(base: int, lo: seq<int>, hi: seq<int>)

  function Slot(l: Layout, i: nat): int {
    l.base + TASK_SIZE * i
  }

  /** Stacks do not overlap the table. */
  predicate OffTable(l: Layout) {
    var n := |l.lo|;
    && |l.hi| == n && 0 <= l.base && l.base + TASK_SIZE * n <= TWO32
    && (forall i :: 0 <= i < n ==>
       0 <= l.lo[i] <= l.hi[i] < TWO32 && (l.hi[i] <= l.base || l.base + TASK_SIZE * n <= l.lo[i]))
  }

  /** The stacks of two slots do not overlap. */
  predicate Apart(l: Layout, i: nat, j: nat) {
    i < |l.lo| && j < |l.lo| && |l.hi| == |l.lo| && (l.hi[i] <= l.lo[j] || l.hi[j] <= l.lo[i])
  }

  /** The machine, the task it runs, and the contexts of the tasks that are parked. */
  datatype System = System(machine: Machine, current: nat, parked: map<nat, Context>)

  /** A parked task's context is intact and fits its stack. */
  ghost predicate Intact(l: Layout, m: Memory, j: nat, k: Context)
    requires |l.lo| == |l.hi|
  {
    j < |l.lo| && l.lo[j] <= k.esp - 20 && k.esp <= l.hi[j] && Parked(m, Slot(l, j), k, l.hi[j])
  }

  /** The tasks with something on their stacks: the current one and the parked ones. */
  predicate Holds(s: System, i: nat) {
    i == s.current || i in s.parked
  }

  /** No two of their stacks overlap. */
  ghost predicate NoOverlap(l: Layout, s: System) {
    forall i: nat, j: nat :: Holds(s, i) && Holds(s, j) && i != j ==> Apart(l, i, j)
  }

  ghost predicate Sound(l: Layout, s: System) {
    && OffTable(l) && s.current < |l.lo| && s.current !in s.parked
    && (forall j :: j in s.parked ==> Intact(l, s.machine.mem, j, s.parked[j]))
    && NoOverlap(l, s)
  }

  datatype Event =
    | Switches(next: nat)
    | Computes(machine: Machine)
    | Creates(slot: nat, id: uint32, start: uint32, isrExit: uint32, cr3: uint32, state: uint32)
    | Drops(slots: set<nat>)

  /** The stack pointer or the directory in a parked task's slot of the task table. */
  ghost predicate InSlot(l: Layout, s: System, x: int) {
    exists j: nat {:trigger Slot(l, j)} :: j in s.parked && (x == Slot(l, j) + KERNEL_ESP || x == Slot(l, j) + CR3)
  }

  /** A word that resumes a parked task: of its slot in the task table, or of its stack. */
  ghost predicate Guarded(l: Layout, s: System, x: int)
    requires |l.lo| == |l.hi|
  {
    || InSlot(l, s, x)
    || exists j :: j in s.parked && j < |l.lo| && l.lo[j] <= x < l.hi[j]
  }

  /**
   * What may happen: the current task calls `task_switch` on its own stack for itself or a parked task; it computes
   * without touching the saved stack pointers and directories or the stacks of parked tasks; it creates a task on a
   * stack clear of those in use, be it that of a task dropped before; parked tasks are dropped.
   */
  ghost predicate Legal(l: Layout, s: System, ev: Event)
    requires Sound(l, s)
  {
    match ev
    case Switches(next) =>
      && (next == s.current || next in s.parked)
      && Call(s.machine, Slot(l, s.current), Slot(l, next))
      && l.lo[s.current] <= s.machine.cpu.esp - 16 && s.machine.cpu.esp as int + 12 <= l.hi[s.current]
    case Computes(machine) =>
      forall x {:trigger Load(machine.mem, x)} :: Guarded(l, s, x) ==> Load(machine.mem, x) == Load(s.machine.mem, x)
    case Creates(slot, id, start, isrExit, cr3, state) =>
      && slot < |l.lo| && !Holds(s, slot) && l.hi[slot] == l.lo[slot] + TASK_STACK_SIZE
      && forall i: nat :: Holds(s, i) ==> Apart(l, slot, i)
    case Drops(slots) => true
  }

  /** After a switch to `next` that task is no longer parked, and the caller is. */
  ghost function ParkedAfter(s: System, next: nat): map<nat, Context> {
    (s.parked - {next}) + if next == s.current then map[] else map[s.current := Calling(s.machine)]
  }

  lemma SwitchKeepsParked(s: System, next: nat, t: nat)
    requires t in s.parked && t != next && t != s.current
    ensures t in ParkedAfter(s, next) && ParkedAfter(s, next)[t] == s.parked[t]
  {
  }

  ghost function Next(l: Layout, s: System, ev: Event): System
    requires Sound(l, s) && Legal(l, s, ev)
  {
    match ev
    case Switches(next) =>
      System(Switch(s.machine), next, ParkedAfter(s, next))
    case Computes(machine) => s.(machine := machine)
    case Creates(slot, id, start, isrExit, cr3, state) =>
      var m := NewTask(s.machine.mem, Slot(l, slot), id, l.lo[slot], start, isrExit, cr3, state);
      s.(machine := s.machine.(mem := m), parked := s.parked[slot := NewContext(m, l.hi[slot], isrExit, cr3)])
    case Drops(slots) => s.(parked := s.parked - slots)
  }

  /** A context survives writes away from its slot and its stack. */
  lemma IntactFrame(l: Layout, m: Memory, m': Memory, j: nat, k: Context)
    requires |l.lo| == |l.hi| && Intact(l, m, j, k)
    requires Load(m', Slot(l, j) + KERNEL_ESP) == Load(m, Slot(l, j) + KERNEL_ESP)
    requires Load(m', Slot(l, j) + CR3) == Load(m, Slot(l, j) + CR3)
    requires forall x {:trigger Load(m', x)} :: l.lo[j] <= x < l.hi[j] ==> Load(m', x) == Load(m, x)
    ensures Intact(l, m', j, k)
  {
  }

  /** Slots of the table are inside it and apart. */
  lemma SlotsApart(l: Layout, i: nat, j: nat)
    requires i < |l.lo| && j < |l.lo|
    ensures l.base <= Slot(l, i) && Slot(l, i) + TASK_SIZE <= l.base + TASK_SIZE * |l.lo|
    ensures i < j ==> Slot(l, i) + TASK_SIZE <= Slot(l, j)
  {
  }

  lemma SwitchKeepsIntact(l: Layout, s: System, next: nat, j: nat, k: Context)
    requires Sound(l, s) && Legal(l, s, Switches(next)) && j != s.current && Intact(l, s.machine.mem, j, k)
    requires Apart(l, s.current, j)
    ensures Intact(l, SaveTask(s.machine).mem, j, k)
  {
    SlotsApart(l, s.current, j);
    SlotsApart(l, j, s.current);
    SaveWrites(s.machine, Slot(l, s.current), Slot(l, next));
    IntactFrame(l, s.machine.mem, SaveTask(s.machine).mem, j, k);
  }

  /** The caller is parked with the context it called in. */
  lemma SwitchParks(l: Layout, s: System, next: nat)
    requires Sound(l, s) && Legal(l, s, Switches(next))
    ensures Intact(l, SaveTask(s.machine).mem, s.current, Calling(s.machine))
  {
    SlotsApart(l, s.current, next);
    SaveParks(s.machine, Slot(l, s.current), Slot(l, next), l.hi[s.current]);
  }

  lemma SwitchMemory(s: Machine)
    ensures Switch(s).mem == SaveTask(s).mem
  {
  }

  /** Letting go of stacks, and of nothing else, keeps them apart. */
  lemma FewerHold(l: Layout, s: System, r: System)
    requires NoOverlap(l, s) && forall i: nat :: Holds(r, i) ==> Holds(s, i)
    ensures NoOverlap(l, r)
  {
  }

  lemma SwitchSound(l: Layout, s: System, next: nat)
    requires Sound(l, s) && Legal(l, s, Switches(next))
    ensures Sound(l, Next(l, s, Switches(next)))
  {
    var r := Next(l, s, Switches(next));
    FewerHold(l, s, r);
    SwitchMemory(s.machine);
    forall j | j in r.parked
      ensures Intact(l, r.machine.mem, j, r.parked[j])
    {
      if j == s.current {
        SwitchParks(l, s, next);
      } else {
        assert Holds(s, s.current) && Holds(s, j);
        SwitchKeepsIntact(l, s, next, j, s.parked[j]);
      }
    }
  }

  /** A switch resumes the other task in exactly the context it was parked with, and the caller itself in its own. */
  lemma SwitchResumes(l: Layout, s: System, next: nat)
    requires Sound(l, s) && Legal(l, s, Switches(next))
    ensures Running(Switch(s.machine), if next == s.current then Calling(s.machine) else s.parked[next], l.hi[next])
  {
    var saved := SaveTask(s.machine);
    var k := if next == s.current then Calling(s.machine) else s.parked[next];
    SaveWrites(s.machine, Slot(l, s.current), Slot(l, next));
    assert Intact(l, saved.mem, next, k) by {
      if next == s.current {
        SwitchParks(l, s, next);
      } else {
        assert Holds(s, s.current) && Holds(s, next);
        SwitchKeepsIntact(l, s, next, next, k);
      }
    }
    LoadResumes(saved, k, l.hi[next]);
  }

  lemma ComputesSound(l: Layout, s: System, machine: Machine)
    requires Sound(l, s) && Legal(l, s, Computes(machine))
    ensures Sound(l, s.(machine := machine))
  {
    FewerHold(l, s, s.(machine := machine));
    forall j | j in s.parked
      ensures Intact(l, machine.mem, j, s.parked[j])
    {
      SlotsApart(l, j, j);
      assert Guarded(l, s, Slot(l, j) + KERNEL_ESP) && Guarded(l, s, Slot(l, j) + CR3);
      forall x | l.lo[j] <= x < l.hi[j]
        ensures Load(machine.mem, x) == Load(s.machine.mem, x)
      {
        assert Guarded(l, s, x);
      }
      IntactFrame(l, s.machine.mem, machine.mem, j, s.parked[j]);
    }
  }

  /** The new task's own slot and stack. */
  lemma CreatesParked(l: Layout, s: System, ev: Event, m': Memory, k: Context)
    requires Sound(l, s) && ev.Creates? && Legal(l, s, ev)
    requires m' == Next(l, s, ev).machine.mem && k == Next(l, s, ev).parked[ev.slot]
    ensures StartFrame(m', l.hi[ev.slot], ev.start) && Intact(l, m', ev.slot, k)
    ensures OnlyTask(s.machine.mem, m', Slot(l, ev.slot), l.lo[ev.slot])
  {
    SlotsApart(l, ev.slot, ev.slot);
    NewTaskParked(s.machine.mem, Slot(l, ev.slot), ev.id, l.lo[ev.slot], ev.start, ev.isrExit, ev.cr3, ev.state);
    NewTaskFrame(s.machine.mem, Slot(l, ev.slot), ev.id, l.lo[ev.slot], ev.start, ev.isrExit, ev.cr3, ev.state);
  }

  lemma OneMoreHolds(l: Layout, s: System, r: System, slot: nat)
    requires NoOverlap(l, s) && forall i: nat :: Holds(r, i) ==> i == slot || Holds(s, i)
    requires forall i: nat :: Holds(s, i) ==> Apart(l, slot, i)
    ensures NoOverlap(l, r)
  {
  }

  lemma CreatesSound(l: Layout, s: System, ev: Event)
    requires Sound(l, s) && ev.Creates? && Legal(l, s, ev)
    ensures Sound(l, Next(l, s, ev)) && StartFrame(Next(l, s, ev).machine.mem, l.hi[ev.slot], ev.start)
  {
    var r := Next(l, s, ev);
    var m' := r.machine.mem;
    CreatesParked(l, s, ev, m', r.parked[ev.slot]);
    OneMoreHolds(l, s, r, ev.slot);
    forall j | j in r.parked
      ensures Intact(l, m', j, r.parked[j])
    {
      if j != ev.slot {
        assert Holds(s, j);
        CreatesSpares(l, s.machine.mem, m', ev.slot, j, s.parked[j]);
      }
    }
  }

  lemma CreatesSpares(l: Layout, m: Memory, m': Memory, i: nat, j: nat, k: Context)
    requires OffTable(l) && Apart(l, i, j) && i != j && l.hi[i] == l.lo[i] + TASK_STACK_SIZE
    requires OnlyTask(m, m', Slot(l, i), l.lo[i]) && Intact(l, m, j, k)
    ensures Intact(l, m', j, k)
  {
    SlotsApart(l, i, j);
    SlotsApart(l, j, i);
    IntactFrame(l, m, m', j, k);
  }

  /** Whatever happens, every parked task's context stays intact. */
  lemma NextSound(l: Layout, s: System, ev: Event)
    requires Sound(l, s) && Legal(l, s, ev)
    ensures Sound(l, Next(l, s, ev))
  {
    match ev
    case Switches(next) => SwitchSound(l, s, next);
    case Computes(machine) => ComputesSound(l, s, machine);
    case Creates(_, _, _, _, _, _) => CreatesSound(l, s, ev);
    case Drops(_) => FewerHold(l, s, Next(l, s, ev));
  }

  // ------------------------------------------------------------------
  // Runs
  // ------------------------------------------------------------------

  ghost predicate LegalRun(l: Layout, s: System, evs: seq<Event>)
    requires Sound(l, s)
    decreases |evs|
  {
    evs == [] || (Legal(l, s, evs[0]) && (NextSound(l, s, evs[0]); LegalRun(l, Next(l, s, evs[0]), evs[1..])))
  }

  ghost function Final(l: Layout, s: System, evs: seq<Event>): (r: System)
    requires Sound(l, s) && LegalRun(l, s, evs)
    ensures Sound(l, r)
    decreases |evs|
  {
    if evs == [] then s else NextSound(l, s, evs[0]); Final(l, Next(l, s, evs[0]), evs[1..])
  }

  /** The event neither switches to task `t` nor drops it. */
  predicate SparedBy(ev: Event, t: nat) {
    ev != Switches(t) && !(ev.Drops? && t in ev.slots)
  }

  /** Nor does any of a run. */
  predicate Spares(evs: seq<Event>, t: nat) {
    evs == [] || (SparedBy(evs[0], t) && Spares(evs[1..], t))
  }

  lemma NextKeepsParked(l: Layout, s: System, ev: Event, t: nat)
    requires Sound(l, s) && Legal(l, s, ev) && t in s.parked && SparedBy(ev, t)
    ensures t in Next(l, s, ev).parked && Next(l, s, ev).parked[t] == s.parked[t]
  {
    match ev
    case Switches(next) => SwitchKeepsParked(s, next, t);
    case Computes(_) =>
    case Creates(slot, _, _, _, _, _) => assert t != slot;
    case Drops(_) =>
  }

  lemma {:induction false} StaysParked(l: Layout, s: System, evs: seq<Event>, t: nat)
    requires Sound(l, s) && LegalRun(l, s, evs) && Spares(evs, t) && t in s.parked
    ensures t in Final(l, s, evs).parked && Final(l, s, evs).parked[t] == s.parked[t]
    decreases |evs|
  {
    if evs != [] {
      NextSound(l, s, evs[0]);
      NextKeepsParked(l, s, evs[0], t);
      StaysParked(l, Next(l, s, evs[0]), evs[1..], t);
    }
  }

  /** A parked task that is resumed after any run of the others gets exactly the context it was parked with. */
  lemma ParkedResumes(l: Layout, s: System, evs: seq<Event>, s2: System, t: nat)
    requires Sound(l, s) && t in s.parked && LegalRun(l, s, evs) && Spares(evs, t) && s2 == Final(l, s, evs)
    requires Legal(l, s2, Switches(t))
    ensures Running(Switch(s2.machine), s.parked[t], l.hi[t])
  {
    StaysParked(l, s, evs, t);
    SwitchResumes(l, s2, t);
  }

  lemma CallerParked(l: Layout, s: System, next: nat)
    requires Sound(l, s) && next != s.current && Legal(l, s, Switches(next))
    ensures var r := Next(l, s, Switches(next)); s.current in r.parked && r.parked[s.current] == Calling(s.machine)
  {
  }

  /**
   * Context isolation: a task that calls `task_switch`, and is resumed after any run of the others, finds the
   * registers, the return address, the page directory and the stack it had when it called.
   */
  lemma ContextIsolation(l: Layout, s: System, next: nat, s1: System, evs: seq<Event>, s2: System)
    requires Sound(l, s) && next != s.current && Legal(l, s, Switches(next)) && s1 == Next(l, s, Switches(next))
    requires Sound(l, s1) && LegalRun(l, s1, evs) && Spares(evs, s.current) && s2 == Final(l, s1, evs)
    requires Legal(l, s2, Switches(s.current))
    ensures Running(Switch(s2.machine), Calling(s.machine), l.hi[s.current])
  {
    CallerParked(l, s, next);
    ParkedResumes(l, s1, evs, s2, s.current);
  }

  /** A new task, first resumed after any run, leaves `isr_exit` at its start address with an empty stack. */
  lemma NewTaskStarts(l: Layout, s: System, ev: Event, s1: System, evs: seq<Event>, s2: System)
    requires Sound(l, s) && ev.Creates? && Legal(l, s, ev) && s1 == Next(l, s, ev)
    requires Sound(l, s1) && LegalRun(l, s1, evs) && Spares(evs, ev.slot) && s2 == Final(l, s1, evs)
    requires Legal(l, s2, Switches(ev.slot))
    ensures Switch(s2.machine).cpu.eip == ev.isrExit
    ensures IsrExit(Switch(s2.machine)).cpu == Cpu(0, 0, 0, 0, 0, 0, 0, l.hi[ev.slot], ev.start, ev.cr3, 8, 0x200)
  {
    CreatesSound(l, s, ev);
    ParkedResumes(l, s1, evs, s2, ev.slot);
    FirstEntry(Switch(s2.machine), s1.machine.mem, l.hi[ev.slot], ev.start, ev.isrExit, ev.cr3);
  }
}
