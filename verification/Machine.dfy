/** The part of the x86 machine that a context switch touches: the seven registers
    that switch_to pushes, esp, eip, and a memory of 32-bit words. Addresses count
    words, so one push moves esp down by one. kernel/sched.c, lines 17-40 and 110-122. */
module Machine {

  type Word = x: int | 0 <= x < 0x1_0000_0000

  datatype Regs = Regs(eax: Word, ecx: Word, edx: Word, ebx: Word, ebp: Word, esi: Word, edi: Word)

  datatype Cpu = Cpu(regs: Regs, esp: nat, eip: Word)

  const ZERO_REGS := Regs(0, 0, 0, 0, 0, 0, 0)

  // Words of a saved context: seven registers and the return address above them.
  const FRAME: nat := 8

  /** The seven pushes of switch_to, read from the lowest address up. */
  function Frame(r: Regs): seq<Word> {
    [r.edi, r.esi, r.ebp, r.ebx, r.edx, r.ecx, r.eax]
  }

  /** Memory once ws has been pushed, last word first, on a stack whose top was at top. */
  function Stacked(mem: seq<Word>, top: nat, ws: seq<Word>): (m: seq<Word>)
    requires |ws| <= top <= |mem|
    ensures |m| == |mem|
  {
    mem[..top - |ws|] + ws + mem[top..]
  }

  /** Memory after the register pushes of switch_to. */
  function Pushed(mem: seq<Word>, cpu: Cpu): (m: seq<Word>)
    requires 7 <= cpu.esp <= |mem|
    ensures |m| == |mem|
  {
    Stacked(mem, cpu.esp, Frame(cpu.regs))
  }

  /** The machine after the pops and the ret of switch_to, from stack pointer sp. */
  function Popped(mem: seq<Word>, sp: nat): Cpu
    requires sp + FRAME <= |mem|
  {
    Cpu(Regs(mem[sp + 6], mem[sp + 5], mem[sp + 4], mem[sp + 3], mem[sp + 2], mem[sp + 1], mem[sp]),
        sp + FRAME, mem[sp + 7])
  }

  /** The words that stack_init leaves at the top of a new stack. */
  function FirstFrame(entry: Word, exitPoint: Word): seq<Word> {
    Frame(ZERO_REGS) + [entry, exitPoint]
  }

  /** Memory after stack_init on a stack that ends at limit. */
  function Prepared(mem: seq<Word>, limit: nat, entry: Word, exitPoint: Word): (m: seq<Word>)
    requires 9 <= limit <= |mem|
    ensures |m| == |mem|
  {
    Stacked(mem, limit, FirstFrame(entry, exitPoint))
  }

  /** What a context switch needs from the memory of a sleeping task: if the words of
      its stack from the saved stack pointer up are those of the moment it was switched
      out, popping them gives back its registers, its stack pointer and the address
      after its call of switch_to. */
  lemma RestoresContext(before: seq<Word>, cpu: Cpu, after: seq<Word>, limit: nat)
    requires 7 <= cpu.esp < limit <= |before| == |after|
    requires forall a :: cpu.esp - 7 <= a < limit ==> after[a] == Pushed(before, cpu)[a]
    ensures Popped(after, cpu.esp - 7) == Cpu(cpu.regs, cpu.esp + 1, before[cpu.esp])
    ensures forall a :: cpu.esp <= a < limit ==> after[a] == before[a]
  {
    var m := Pushed(before, cpu);
    assert forall a :: cpu.esp <= a < limit ==> m[a] == before[a];
    assert m[cpu.esp - 7] == cpu.regs.edi && m[cpu.esp - 6] == cpu.regs.esi && m[cpu.esp - 5] == cpu.regs.ebp;
    assert m[cpu.esp - 4] == cpu.regs.ebx && m[cpu.esp - 3] == cpu.regs.edx && m[cpu.esp - 2] == cpu.regs.ecx;
    assert m[cpu.esp - 1] == cpu.regs.eax;
  }

  /** The first dispatch: popping the frame of stack_init enters the task's function
      with zeroed registers and the address of exit_point on top of the stack. */
  lemma FirstDispatch(before: seq<Word>, limit: nat, entry: Word, exitPoint: Word, after: seq<Word>)
    requires 9 <= limit <= |before| == |after|
    requires forall a :: limit - 9 <= a < limit ==> after[a] == Prepared(before, limit, entry, exitPoint)[a]
    ensures Popped(after, limit - 9) == Cpu(ZERO_REGS, limit - 1, entry)
    ensures after[limit - 1] == exitPoint
  {
    var m := Prepared(before, limit, entry, exitPoint);
    assert forall i :: 0 <= i < 9 ==> m[limit - 9 + i] == FirstFrame(entry, exitPoint)[i];
    assert m[limit - 9] == 0 && m[limit - 8] == 0 && m[limit - 7] == 0 && m[limit - 6] == 0;
    assert m[limit - 5] == 0 && m[limit - 4] == 0 && m[limit - 3] == 0;
    assert m[limit - 2] == entry && m[limit - 1] == exitPoint;
  }

  /** A switch on one stack and a preparation of another do not disturb each other. */
  lemma PreparedThenPushed(mem: seq<Word>, cpu: Cpu, base: nat, limit: nat, top: nat, entry: Word, exitPoint: Word)
    requires base + 7 <= cpu.esp < limit <= |mem| && 9 <= top <= |mem|
    requires top <= base || limit <= top - 9
    ensures var m := Pushed(Prepared(mem, top, entry, exitPoint), cpu);
      && (forall a :: cpu.esp - 7 <= a < limit ==> m[a] == Pushed(mem, cpu)[a])
      && (forall a :: top - 9 <= a < top ==> m[a] == Prepared(mem, top, entry, exitPoint)[a])
  {
  }
}
