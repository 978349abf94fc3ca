/** The meaning of an assembly program without addresses: instructions are
    numbered, jumps go to labels, calls push instruction numbers on a list, and
    data memory is a table of words. */
module Symbolic {
  import opened Isa
  import opened Machine
  import opened ProgramStore
  import opened Options

  /** The word at byte address a is at position a / 2. */
  type DataMemory = m: seq<Word> | |m| == 0x8000 witness seq(0x8000, _ => 0)

  const MAX_DEPTH := 1919

  datatype SymState = SymState(rv: Registers, flags: Word, index: nat, stack: seq<nat>,
                               data: DataMemory, halt: bool)

  function SymInitial(): SymState {
    SymState([0, 0, 0, 0, 0, 0, 0, 0], 0, 0, [], seq(0x8000, _ => 0), false)
  }

  /** An even address that is neither code nor stack. */
  predicate IsData(p: Program, a: Word) {
    a % 2 == 0 && 2 * |p.instrs| <= a && !(STACK_START <= a <= STACK_END)
  }

  /** One step.  `None` is a step this semantics does not describe: the index
      has left the program, an operand has no meaning, or a LOAD or STORE
      touches the code or the stack. */
  function SymStep(p: Program, s: SymState): Option<SymState> {
    if s.halt then Some(s)
    else if s.index >= |p.instrs| then None
    else SymExec(p, p.instrs[s.index], s.(index := s.index + 1))
  }

  function SymRun(p: Program, s: SymState, n: nat): Option<SymState> {
    if n == 0 then Some(s)
    else
      var before := SymRun(p, s, n - 1);
      if before.None? then None else SymStep(p, before.value)
  }

  function SymFault(s: SymState): SymState { s.(halt := true) }

  /** A register, or an immediate reduced to 8 bits. */
  function SymSource(s: SymState, b: Operand): Option<Word> {
    match b
    case Imm(imm) => Some(imm % 0x100)
    case RegOperand(reg) => Some(s.rv[reg])
    case _ => None
  }

  /** The address of a bracketed operand.  A label in brackets stands for its
      instruction number reduced to 8 bits. */
  function SymAddress(p: Program, s: SymState, mem: MemRef): Option<Word> {
    match mem
    case MemImm(imm) => Some(imm % 0x100)
    case MemReg(reg) => Some(s.rv[reg])
    case MemLabel(name) =>
      var t := FindLabel(p.labels, name);
      if t < 0 then None else Some(t % 0x100)
    case MemNone => None
  }

  /** Where a branch goes: a label's instruction, or the instruction at the
      address in a register. */
  datatype Target = Unknown | Bad | At(index: nat)

  function SymTarget(p: Program, s: SymState, a: Operand): Target {
    match a
    case LabelOperand(name) =>
      var t := FindLabel(p.labels, name);
      if t < 0 then Unknown else At(t)
    case RegOperand(reg) =>
      var v := s.rv[reg];
      if BadAddress(v) then Bad else At(v / 2)
    case _ => Unknown
  }

  function SymExec(p: Program, instr: Instr, s: SymState): Option<SymState> {
    match instr.opcode
    case MOV => SymMov(instr, s)
    case LOAD => SymLoad(p, instr, s)
    case STORE => SymStore(p, instr, s)
    case JMP => SymJump(p, instr, s)
    case JZ => if RZ(s.flags) then SymJump(p, instr, s) else Some(s)
    case JNZ => if RZ(s.flags) then Some(s) else SymJump(p, instr, s)
    case CALL => SymCall(p, instr, s)
    case RET =>
      if s.stack == [] then Some(s.(halt := true))
      else Some(s.(index := s.stack[0], stack := s.stack[1..]))
    case _ => SymAlu(instr, s)
  }

  function SymMov(instr: Instr, s: SymState): Option<SymState> {
    var src := SymSource(s, instr.opr2);
    if !instr.opr1.RegOperand? || src.None? then None
    else Some(s.(rv := s.rv[instr.opr1.reg := src.value]))
  }

  function SymAlu(instr: Instr, s: SymState): Option<SymState>
    requires IsAlu(instr.opcode)
  {
    var src := SymSource(s, instr.opr2);
    if !instr.opr1.RegOperand? || src.None? then None
    else
      match Alu(instr.opcode, s.rv[instr.opr1.reg], src.value, s.flags)
      case DivisionByZero => Some(s.(halt := true))
      case Outcome(v, f) =>
        Some(s.(flags := f, rv := if instr.opcode == CMP then s.rv else s.rv[instr.opr1.reg := v]))
  }

  function SymLoad(p: Program, instr: Instr, s: SymState): Option<SymState> {
    if !instr.opr1.RegOperand? || !instr.opr2.Mem? then None
    else
      var a := SymAddress(p, s, instr.opr2.mem);
      if a.None? then None
      else if BadAddress(a.value) then Some(SymFault(s))
      else if !IsData(p, a.value) then None
      else Some(s.(rv := s.rv[instr.opr1.reg := s.data[a.value / 2]]))
  }

  function SymStore(p: Program, instr: Instr, s: SymState): Option<SymState> {
    if !instr.opr1.Mem? || !instr.opr2.RegOperand? then None
    else
      var a := SymAddress(p, s, instr.opr1.mem);
      if a.None? then None
      else if BadAddress(a.value) then Some(SymFault(s))
      else if !IsData(p, a.value) then None
      else Some(s.(data := s.data[a.value / 2 := s.rv[instr.opr2.reg]]))
  }

  function SymJump(p: Program, instr: Instr, s: SymState): Option<SymState> {
    match SymTarget(p, s, instr.opr1)
    case Unknown => None
    case Bad => Some(SymFault(s))
    case At(t) => Some(s.(index := t))
  }

  /** A call remembers the number of the instruction after it. */
  function SymCall(p: Program, instr: Instr, s: SymState): Option<SymState> {
    match SymTarget(p, s, instr.opr1)
    case Unknown => None
    case Bad => Some(SymFault(s))
    case At(t) =>
      if |s.stack| >= MAX_DEPTH then Some(SymFault(s))
      else Some(s.(index := t, stack := [s.index] + s.stack))
  }
}
