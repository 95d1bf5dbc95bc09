/**
 * The context switch as a machine over registers and stacks: arch/x86/kernel/task-switch.asm, the way out of an
 * interrupt in isr.asm, and the stack kernel/task.c lays out for a new task.
 */
module TaskSwitch {
  import opened Words
  import opened HeapMemory
  import opened TaskLayout

  datatype Cpu = Cpu(eax: uint32, ebx: uint32, ecx: uint32, edx: uint32, esi: uint32, edi: uint32, ebp: uint32,
                     esp: uint32, eip: uint32, cr3: uint32, cs: uint32, eflags: uint32)

  datatype Machine = Machine(cpu: Cpu, mem: Memory)

  /** Offsets in a task structure, and its size. */
  const KERNEL_ESP := 4
  const CR3 := 16
  const TASK_SIZE := 44

  // ------------------------------------------------------------------
  // Instructions
  // ------------------------------------------------------------------

  function Push(s: Machine, v: uint32): Machine {
    var sp := Sub(s.cpu.esp, 4);
    Machine(s.cpu.(esp := sp), s.mem[sp := v])
  }

  /** The word a pop takes off the stack, and the machine without it. */
  function Top(s: Machine): uint32 {
    Load(s.mem, s.cpu.esp)
  }

  function Popped(s: Machine): Machine {
    s.(cpu := s.cpu.(esp := Add(s.cpu.esp, 4)))
  }

  function PopEdi(s: Machine): Machine {
    var r := Popped(s); r.(cpu := r.cpu.(edi := Top(s)))
  }

  function PopEsi(s: Machine): Machine {
    var r := Popped(s); r.(cpu := r.cpu.(esi := Top(s)))
  }

  function PopEbx(s: Machine): Machine {
    var r := Popped(s); r.(cpu := r.cpu.(ebx := Top(s)))
  }

  function PopEbp(s: Machine): Machine {
    var r := Popped(s); r.(cpu := r.cpu.(ebp := Top(s)))
  }

  function Ret(s: Machine): Machine {
    var r := Popped(s); r.(cpu := r.cpu.(eip := Top(s)))
  }

  /** `task_switch`, first half: save the outgoing task. */
  function SaveTask(s: Machine): Machine {
    var eax := Load(s.mem, Add(s.cpu.esp, 4));
    var edx := Load(s.mem, Add(s.cpu.esp, 8));
    var p := Push(Push(Push(Push(s, s.cpu.ebp), s.cpu.ebx), s.cpu.esi), s.cpu.edi);
    var ebx := p.cpu.cr3;
    Machine(p.cpu.(eax := eax, edx := edx, ebx := ebx), p.mem[Add(eax, CR3) := ebx][Add(eax, KERNEL_ESP) := p.cpu.esp])
  }

  /** `task_switch`, second half: load the incoming one. */
  function LoadTask(s: Machine): Machine {
    var esp := Load(s.mem, Add(s.cpu.edx, KERNEL_ESP));
    var ebx := Load(s.mem, Add(s.cpu.edx, CR3));
    Ret(PopEbp(PopEbx(PopEsi(PopEdi(s.(cpu := s.cpu.(esp := esp, ebx := ebx, cr3 := ebx)))))))
  }

  function Switch(s: Machine): Machine {
    LoadTask(SaveTask(s))
  }

  // ------------------------------------------------------------------
  // What a task gets back
  // ------------------------------------------------------------------

  /** All that a task can see again when it resumes: the preserved registers, where it continues, and its stack. */
  datatype Context = Context(esp: uint32, ebp: uint32, ebx: uint32, esi: uint32, edi: uint32, cr3: uint32, eip: uint32,
                             stack: Memory)

  /** The context of the task that calls `task_switch`, as it is to find it when the call returns. */
  function Calling(s: Machine): Context {
    var c := s.cpu;
    Context(Add(c.esp, 4), c.ebp, c.ebx, c.esi, c.edi, c.cr3, Load(s.mem, c.esp), s.mem)
  }

  /** The machine runs in context `k`, on a stack that ends at `hi`. */
  ghost predicate Running(s: Machine, k: Context, hi: int) {
    var c := s.cpu;
    && c.esp == k.esp && c.ebp == k.ebp && c.ebx == k.ebx && c.esi == k.esi && c.edi == k.edi && c.cr3 == k.cr3 &&
       c.eip == k.eip
    && StackKept(s.mem, k, hi)
  }

  ghost predicate StackKept(m: Memory, k: Context, hi: int) {
    forall x {:trigger Load(m, x)} :: k.esp <= x < hi ==> Load(m, x) == Load(k.stack, x)
  }

  /** The structure at `p` and the stack it points to hold the context `k`, on a stack that ends at `hi`. */
  ghost predicate Parked(m: Memory, p: int, k: Context, hi: int) {
    var sp := k.esp - 20;
    && 0 <= sp && Load(m, p + KERNEL_ESP) == sp && Load(m, p + CR3) == k.cr3
    && Load(m, sp) == k.edi && Load(m, sp + 4) == k.esi && Load(m, sp + 8) == k.ebx && Load(m, sp + 12) == k.ebp
    && Load(m, sp + 16) == k.eip
    && StackKept(m, k, hi)
  }

  /** A call of `task_switch(prev, next)` on a stack with room for four words. */
  ghost predicate Call(s: Machine, prev: int, next: int) {
    var a := s.cpu.esp;
    && 16 <= a && a + 12 <= TWO32
    && Load(s.mem, a + 4) == prev && Load(s.mem, a + 8) == next
    && 0 <= prev && prev + TASK_SIZE <= TWO32 && 0 <= next && next + TASK_SIZE <= TWO32
    && (prev + TASK_SIZE <= a - 16 || a + 12 <= prev)
  }

  /** What saving writes. */
  lemma SaveWrites(s: Machine, prev: int, next: int)
    requires Call(s, prev, next)
    ensures var a, c, r := s.cpu.esp, s.cpu, SaveTask(s);
            && r.cpu.edx == next
            && Load(r.mem, a - 4) == c.ebp && Load(r.mem, a - 8) == c.ebx && Load(r.mem, a - 12) == c.esi &&
               Load(r.mem, a - 16) == c.edi
            && Load(r.mem, prev + CR3) == c.cr3 && Load(r.mem, prev + KERNEL_ESP) == a - 16
            && forall x {:trigger Load(r.mem, x)} ::
                 x != a - 4 && x != a - 8 && x != a - 12 && x != a - 16 && x != prev + CR3 && x != prev + KERNEL_ESP
                 ==> Load(r.mem, x) == Load(s.mem, x)
  {
  }

  /** The outgoing task is parked with exactly the context it called in. */
  lemma SaveParks(s: Machine, prev: int, next: int, hi: int)
    requires Call(s, prev, next) && (prev + TASK_SIZE <= s.cpu.esp - 16 || hi <= prev)
    ensures Parked(SaveTask(s).mem, prev, Calling(s), hi)
  {
    SaveWrites(s, prev, next);
  }

  /** A parked task runs again in exactly the context it was parked with. */
  lemma LoadResumes(s: Machine, k: Context, hi: int)
    requires Parked(s.mem, s.cpu.edx, k, hi) && s.cpu.edx as int + TASK_SIZE <= TWO32
    ensures Running(LoadTask(s), k, hi) && LoadTask(s).mem == s.mem
  {
  }

  /**
   * What a switch leaves in the registers that are not a task's to keep: the arguments, and what was there. The code
   * segment and the flags are those of the caller.
   */
  lemma SwitchLeaves(s: Machine, prev: int, next: int)
    requires Call(s, prev, next)
    ensures var c := Switch(s).cpu;
            && c.eax == prev && c.edx == next && c.ecx == s.cpu.ecx && c.cs == s.cpu.cs && c.eflags == s.cpu.eflags
    ensures Switch(s).mem == SaveTask(s).mem
  {
    SaveWrites(s, prev, next);
  }

  /** Switching to oneself gives everything back. */
  lemma SwitchToSelf(s: Machine, p: int, hi: int)
    requires Call(s, p, p) && (p + TASK_SIZE <= s.cpu.esp - 16 || hi <= p)
    ensures Running(Switch(s), Calling(s), hi)
  {
    SaveWrites(s, p, p);
    SaveParks(s, p, p, hi);
    LoadResumes(SaveTask(s), Calling(s), hi);
  }

  // ------------------------------------------------------------------
  // A new task's stack
  // ------------------------------------------------------------------

  function WriteWords(m: Memory, a: int, words: seq<uint32>): Memory
    decreases |words|
  {
    if words == [] then m else WriteWords(m[a := words[0]], a + 4, words[1..])
  }

  lemma {:induction false} WriteWordsFrame(m: Memory, a: int, words: seq<uint32>, x: int)
    requires x < a || a + 4 * |words| <= x
    ensures Load(WriteWords(m, a, words), x) == Load(m, x)
    decreases |words|
  {
    if words != [] {
      WriteWordsFrame(m[a := words[0]], a + 4, words[1..], x);
    }
  }

  lemma {:induction false} WriteWordsAt(m: Memory, a: int, words: seq<uint32>, i: nat)
    requires i < |words|
    ensures Load(WriteWords(m, a, words), a + 4 * i) == words[i]
    decreases |words|
  {
    if i == 0 {
      WriteWordsFrame(m[a := words[0]], a + 4, words[1..], a);
    } else {
      WriteWordsAt(m[a := words[0]], a + 4, words[1..], i - 1);
    }
  }

  /** The words of `isr_registers` for a task that starts at `start`. */
  function StartRegisters(start: uint32): (r: seq<uint32>)
    ensures |r| == 13
  {
    [0, 0, 0, 0, 0, 0, 0, 0, 0, 0, start, 8, 0x200]
  }

  /** The words of a new task's structure: its stack pointer is below the two frames. */
  function TaskWords(id: uint32, stack: uint32, cr3: uint32, state: uint32): (r: seq<uint32>)
    requires stack as int + TASK_STACK_SIZE < TWO32
    ensures |r| == 7
  {
    var top := stack + TASK_STACK_SIZE;
    [id, top - ISR_REGISTERS - TASK_CONTEXT, top, stack, cr3, state, 0]
  }

  /** What `task_create` writes: the task structure at `p`, and the two frames at the top of the stack. */
  function NewTask(m: Memory, p: int, id: uint32, stack: uint32, start: uint32, isrExit: uint32, cr3: uint32,
                   state: uint32): Memory
    requires stack as int + TASK_STACK_SIZE < TWO32
  {
    var top := stack + TASK_STACK_SIZE;
    var m1 := WriteWords(m, p, TaskWords(id, stack, cr3, state));
    var m2 := WriteWords(m1, top - ISR_REGISTERS, StartRegisters(start));
    WriteWords(m2, top - ISR_REGISTERS - TASK_CONTEXT, [0, 0, 0, 0, isrExit])
  }

  /** The context a new task is parked in. */
  function NewContext(m: Memory, top: uint32, isrExit: uint32, cr3: uint32): Context
    requires ISR_REGISTERS <= top
  {
    Context(top - ISR_REGISTERS, 0, 0, 0, 0, cr3, isrExit, m)
  }

  /** The stack of a new task, from the bottom of the saved interrupt frame. */
  ghost predicate StartFrame(m: Memory, top: int, start: uint32) {
    forall i {:trigger StartRegisters(start)[i]} :: 0 <= i < 13 ==>
      Load(m, top - ISR_REGISTERS + 4 * i) == StartRegisters(start)[i]
  }

  /** The words of the structure at `p`. */
  ghost predicate SlotHolds(m: Memory, p: int, slot: seq<uint32>) {
    |slot| == 7 && forall i {:trigger slot[i]} :: 0 <= i < 7 ==> Load(m, p + 4 * i) == slot[i]
  }

  /** Only the structure at `p` and the stack are written. */
  ghost predicate OnlyTask(m: Memory, m': Memory, p: int, stack: int) {
    forall x {:trigger Load(m', x)} ::
      (x < p || p + TASK_SIZE <= x) && (x < stack || stack + TASK_STACK_SIZE <= x) ==> Load(m', x) == Load(m, x)
  }

  lemma NewTaskFrame(m: Memory, p: int, id: uint32, stack: uint32, start: uint32, isrExit: uint32, cr3: uint32,
                     state: uint32)
    requires stack as int + TASK_STACK_SIZE < TWO32
    ensures OnlyTask(m, NewTask(m, p, id, stack, start, isrExit, cr3, state), p, stack)
  {
    var top := stack + TASK_STACK_SIZE;
    var slot := TaskWords(id, stack, cr3, state);
    var m1 := WriteWords(m, p, slot);
    var m2 := WriteWords(m1, top - ISR_REGISTERS, StartRegisters(start));
    var context: seq<uint32> := [0, 0, 0, 0, isrExit];
    forall x | (x < p || p + TASK_SIZE <= x) && (x < stack || stack as int + TASK_STACK_SIZE <= x)
      ensures Load(NewTask(m, p, id, stack, start, isrExit, cr3, state), x) == Load(m, x)
    {
      WriteWordsFrame(m, p, slot, x);
      WriteWordsFrame(m1, top - ISR_REGISTERS, StartRegisters(start), x);
      WriteWordsFrame(m2, top - ISR_REGISTERS - TASK_CONTEXT, context, x);
    }
  }

  /** A new task is parked like any other, with the frame that starts it on its stack. */
  lemma NewTaskParked(m: Memory, p: int, id: uint32, stack: uint32, start: uint32, isrExit: uint32, cr3: uint32,
                      state: uint32)
    requires stack as int + TASK_STACK_SIZE < TWO32
    requires p + TASK_SIZE <= stack || stack as int + TASK_STACK_SIZE <= p
    ensures var m' := NewTask(m, p, id, stack, start, isrExit, cr3, state); var top := stack + TASK_STACK_SIZE;
            && Parked(m', p, NewContext(m', top, isrExit, cr3), top)
            && StartFrame(m', top, start)
            && SlotHolds(m', p, TaskWords(id, stack, cr3, state))
  {
    var top := stack + TASK_STACK_SIZE;
    var slot := TaskWords(id, stack, cr3, state);
    var context: seq<uint32> := [0, 0, 0, 0, isrExit];
    var m1 := WriteWords(m, p, slot);
    var m2 := WriteWords(m1, top - ISR_REGISTERS, StartRegisters(start));
    var sp := top - ISR_REGISTERS - TASK_CONTEXT;
    var m' := NewTask(m, p, id, stack, start, isrExit, cr3, state);
    SlotWritten(m, m1, m2, m', p, slot, top, StartRegisters(start), context);
    assert Load(m', p + 4 * 1) == slot[1] && Load(m', p + 4 * 4) == slot[4];
    ContextWritten(m2, sp, context);
    RegistersWritten(m1, m2, m', top, start, context);
  }

  lemma ContextWritten(m: Memory, sp: int, context: seq<uint32>)
    requires |context| == 5
    ensures var m' := WriteWords(m, sp, context);
            && Load(m', sp) == context[0] && Load(m', sp + 4) == context[1] && Load(m', sp + 8) == context[2]
            && Load(m', sp + 12) == context[3] && Load(m', sp + 16) == context[4]
  {
    WriteWordsAt(m, sp, context, 0);
    WriteWordsAt(m, sp, context, 1);
    WriteWordsAt(m, sp, context, 2);
    WriteWordsAt(m, sp, context, 3);
    WriteWordsAt(m, sp, context, 4);
  }

  lemma RegistersWritten(m1: Memory, m2: Memory, m': Memory, top: int, start: uint32, context: seq<uint32>)
    requires |context| == 5 && m2 == WriteWords(m1, top - ISR_REGISTERS, StartRegisters(start))
    requires m' == WriteWords(m2, top - ISR_REGISTERS - TASK_CONTEXT, context)
    ensures StartFrame(m', top, start)
  {
    forall i | 0 <= i < 13
      ensures Load(m', top - ISR_REGISTERS + 4 * i) == StartRegisters(start)[i]
    {
      WriteWordsAt(m1, top - ISR_REGISTERS, StartRegisters(start), i);
      WriteWordsFrame(m2, top - ISR_REGISTERS - TASK_CONTEXT, context, top - ISR_REGISTERS + 4 * i);
    }
  }

  lemma SlotWritten(m: Memory, m1: Memory, m2: Memory, m': Memory, p: int, slot: seq<uint32>, top: int,
                    regs: seq<uint32>, context: seq<uint32>)
    requires |slot| == 7 && |regs| == 13 && |context| == 5
    requires m1 == WriteWords(m, p, slot) && m2 == WriteWords(m1, top - ISR_REGISTERS, regs)
    requires m' == WriteWords(m2, top - ISR_REGISTERS - TASK_CONTEXT, context)
    requires p + TASK_SIZE <= top - ISR_REGISTERS - TASK_CONTEXT || top <= p
    ensures SlotHolds(m', p, slot)
  {
    forall i | 0 <= i < 7
      ensures Load(m', p + 4 * i) == slot[i]
    {
      WriteWordsAt(m, p, slot, i);
      WriteWordsFrame(m1, top - ISR_REGISTERS, regs, p + 4 * i);
      WriteWordsFrame(m2, top - ISR_REGISTERS - TASK_CONTEXT, context, p + 4 * i);
    }
  }

  function PopEdx(s: Machine): Machine {
    var r := Popped(s); r.(cpu := r.cpu.(edx := Top(s)))
  }

  function PopEcx(s: Machine): Machine {
    var r := Popped(s); r.(cpu := r.cpu.(ecx := Top(s)))
  }

  function PopEax(s: Machine): Machine {
    var r := Popped(s); r.(cpu := r.cpu.(eax := Top(s)))
  }

  /** `popad`, which skips the saved stack pointer. */
  function PopAll(s: Machine): Machine {
    PopEax(PopEcx(PopEdx(PopEbx(Popped(PopEbp(PopEsi(PopEdi(s))))))))
  }

  /** `iret` to the same privilege level. */
  function InterruptReturn(s: Machine): Machine {
    var s1 := Ret(s);
    var s2 := Popped(s1).(cpu := Popped(s1).cpu.(cs := Top(s1)));
    Popped(s2).(cpu := Popped(s2).cpu.(eflags := Top(s2)))
  }

  /** The interrupt flag of `eflags`. */
  const INTERRUPT_FLAG := 0x200

  predicate InterruptsOn(eflags: uint32) {
    eflags / INTERRUPT_FLAG % 2 == 1
  }

  /** `sti`: sets the interrupt flag and leaves the others. */
  function SetInterrupts(s: Machine): (r: Machine)
    ensures InterruptsOn(r.cpu.eflags)
  {
    if InterruptsOn(s.cpu.eflags) then s else s.(cpu := s.cpu.(eflags := s.cpu.eflags + INTERRUPT_FLAG))
  }

  /**
   * `isr_exit`: pop the general registers, skip the interrupt's number and error code, turn interrupts on, return from
   * the interrupt.
   */
  function IsrExit(s: Machine): Machine {
    var p := PopAll(s);
    InterruptReturn(SetInterrupts(p.(cpu := p.cpu.(esp := Add(p.cpu.esp, 8)))))
  }

  /** The words `isr_exit` takes off the stack, and where each goes; the saved stack pointer is skipped. */
  lemma IsrExitPops(s: Machine)
    requires s.cpu.esp as int + ISR_REGISTERS < TWO32
    ensures var r, a := IsrExit(s), s.cpu.esp as int;
            && r.mem == s.mem
            && r.cpu == Cpu(Load(s.mem, a + 28), Load(s.mem, a + 16), Load(s.mem, a + 24), Load(s.mem, a + 20),
                        Load(s.mem, a + 4), Load(s.mem, a), Load(s.mem, a + 8), a + 52, Load(s.mem, a + 40), s.cpu.cr3,
                        Load(s.mem, a + 44), Load(s.mem, a + 48))
  {
  }

  /** A new task that is resumed enters its start address with interrupts enabled, on an empty stack. */
  lemma FirstEntry(s: Machine, m: Memory, top: uint32, start: uint32, isrExit: uint32, cr3: uint32)
    requires ISR_REGISTERS + TASK_CONTEXT <= top && StartFrame(m, top, start)
    requires Running(s, NewContext(m, top, isrExit, cr3), top)
    ensures s.cpu.eip == isrExit
    ensures IsrExit(s).cpu == Cpu(0, 0, 0, 0, 0, 0, 0, top, start, cr3, 8, 0x200)
  {
    var r := StartRegisters(start);
    assert r[0] == 0 && r[1] == 0 && r[2] == 0 && r[4] == 0 && r[5] == 0 && r[6] == 0 && r[7] == 0;
    assert r[10] == start && r[11] == 8 && r[12] == 0x200;
  }

  // ------------------------------------------------------------------
  // The code
  // ------------------------------------------------------------------

  class Processor {
    var cpu: Cpu
    var mem: Memory

    function State(): Machine
      reads this
    {
      Machine(cpu, mem)
    }

    method PushWord(v: uint32)
      modifies this
      ensures State() == Push(old(State()), v)
    {
      cpu := cpu.(esp := Sub(cpu.esp, 4));
      mem := mem[cpu.esp := v];
    }

    method PopWord() returns (v: uint32)
      modifies this`cpu
      ensures v == Top(old(State())) && State() == Popped(old(State()))
    {
      v := Load(mem, cpu.esp);
      cpu := cpu.(esp := Add(cpu.esp, 4));
    }

    /** `task_switch`, instruction by instruction. */
    method TaskSwitch()
      modifies this
      ensures State() == Switch(old(State()))
    {
      cpu := cpu.(eax := Load(mem, Add(cpu.esp, 4)));
      cpu := cpu.(edx := Load(mem, Add(cpu.esp, 8)));
      PushWord(cpu.ebp);
      PushWord(cpu.ebx);
      PushWord(cpu.esi);
      PushWord(cpu.edi);
      cpu := cpu.(ebx := cpu.cr3);
      mem := mem[Add(cpu.eax, CR3) := cpu.ebx];
      mem := mem[Add(cpu.eax, KERNEL_ESP) := cpu.esp];
      assert State() == SaveTask(old(State()));
      cpu := cpu.(esp := Load(mem, Add(cpu.edx, KERNEL_ESP)));
      cpu := cpu.(ebx := Load(mem, Add(cpu.edx, CR3)));
      cpu := cpu.(cr3 := cpu.ebx);
      var word := PopWord();
      cpu := cpu.(edi := word);
      word := PopWord();
      cpu := cpu.(esi := word);
      word := PopWord();
      cpu := cpu.(ebx := word);
      word := PopWord();
      cpu := cpu.(ebp := word);
      word := PopWord();
      cpu := cpu.(eip := word);
    }

    method Popad()
      modifies this`cpu
      ensures State() == PopAll(old(State()))
    {
      var word := PopWord();
      cpu := cpu.(edi := word);
      word := PopWord();
      cpu := cpu.(esi := word);
      word := PopWord();
      cpu := cpu.(ebp := word);
      word := PopWord();
      word := PopWord();
      cpu := cpu.(ebx := word);
      word := PopWord();
      cpu := cpu.(edx := word);
      word := PopWord();
      cpu := cpu.(ecx := word);
      word := PopWord();
      cpu := cpu.(eax := word);
    }

    method Sti()
      modifies this`cpu
      ensures State() == SetInterrupts(old(State()))
    {
      if !InterruptsOn(cpu.eflags) {
        cpu := cpu.(eflags := cpu.eflags + INTERRUPT_FLAG);
      }
    }

    method Iret()
      modifies this`cpu
      ensures State() == InterruptReturn(old(State()))
    {
      var word := PopWord();
      cpu := cpu.(eip := word);
      word := PopWord();
      cpu := cpu.(cs := word);
      word := PopWord();
      cpu := cpu.(eflags := word);
    }

    /** `isr_exit`, instruction by instruction. */
    method IsrExitCode()
      modifies this`cpu
      ensures State() == IsrExit(old(State()))
    {
      Popad();
      cpu := cpu.(esp := Add(cpu.esp, 8));
      Sti();
      Iret();
    }
  }
}
