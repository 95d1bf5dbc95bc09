/** Sizes of a task's stack and of the frames laid out on it, include/rotary/task.h and include/rotary/interrupts.h. */
module TaskLayout {
  const TASK_STACK_SIZE := 8192
  /** `isr_registers` and `task_context`, in bytes. */
  const ISR_REGISTERS := 52
  const TASK_CONTEXT := 20
}
