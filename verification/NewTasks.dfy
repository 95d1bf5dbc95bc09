/** The task table and the context switch speak of the same new task. */
module NewTasks {
  import opened Words
  import opened HeapMemory
  import opened TaskLayout
  import opened TaskSwitch
  import S = Scheduler

  /** The values of include/rotary/task.h. */
  function StateWord(state: S.State): uint32 {
    match state
    case EMPTY => 0
    case RUNNING => 1
    case WAITING => 2
    case PAUSED => 4
    case KILLED => 5
  }

  /** A task structure's words, in the order of its fields; the name is left out. */
  function Fields(t: S.Task): (r: seq<uint32>)
    ensures |r| == 7
  {
    [t.id, t.kernelEsp, t.kernelEbp, t.stackFrame, t.cr3, StateWord(t.state), t.ticks]
  }

  /** The structure written is, field by field, the one the task table's model gives the new task. */
  lemma NewTaskMatchesTable(s: S.Sched, state: S.State, m: Memory, p: int, stack: uint32, start: uint32,
                            isrExit: uint32, cr3: uint32)
    requires S.Shaped(s) && (state == S.PAUSED || state == S.WAITING)
    requires 0 < stack && stack as int + TASK_STACK_SIZE < TWO32 && stack != S.KMALLOC_FAIL
    requires p + TASK_SIZE <= stack || stack as int + TASK_STACK_SIZE <= p
    ensures SlotHolds(NewTask(m, p, s.last, stack, start, isrExit, cr3, StateWord(state)), p,
                      Fields(S.Create(s, state, stack, cr3).tasks[s.last]))
  {
    NewTaskParked(m, p, s.last, stack, start, isrExit, cr3, StateWord(state));
    assert Fields(S.Create(s, state, stack, cr3).tasks[s.last]) == TaskWords(s.last, stack, cr3, StateWord(state));
  }
}
