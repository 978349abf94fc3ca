/** Assembler correctness: running the emitted bytes is running the program. */
module Simulation {
  import opened Isa
  import opened Machine
  import opened WordFormat
  import opened ProgramStore
  import opened Encoder
  import opened Symbolic
  import opened Options

  const MAX_INSTRS := 16383

  /** A program the assembler turns into words that fit the executable region,
      with a label table as the parser builds it. */
  ghost predicate Assembled(p: Program, words: seq<Word>) {
    && Assembles(p, words)
    && |p.instrs| <= MAX_INSTRS
    && LabelsInOrder(p.labels, |p.instrs|)
  }

  // ---- the correspondence ----

  ghost predicate RegistersAgree(c: State, s: SymState) {
    c.rv == s.rv && c.flags == s.flags && c.halt == s.halt && c.rip == 2 * s.index
  }

  /** RSP and the bytes above it spell the pending return indices. */
  ghost predicate StackAgrees(c: State, s: SymState, count: nat) {
    && |s.stack| <= MAX_DEPTH
    && c.rsp == STACK_END - 2 * |s.stack|
    && forall k :: 0 <= k < |s.stack| ==>
         s.stack[k] <= count && ReadWord(c.mem, c.rsp + 2 * k) == 2 * s.stack[k]
  }

  ghost predicate CodeIntact(m: Bytes, words: seq<Word>)
    requires |words| <= MAX_INSTRS
  {
    forall i :: 0 <= i < |words| ==> ReadWord(m, 2 * i) == words[i]
  }

  ghost predicate DataAgrees(p: Program, m: Bytes, data: DataMemory) {
    forall a: Word :: IsData(p, a) ==> ReadWord(m, a) == data[a / 2]
  }

  ghost predicate Agree(p: Program, words: seq<Word>, c: State, s: SymState)
    requires |words| <= MAX_INSTRS
  {
    && RegistersAgree(c, s)
    && StackAgrees(c, s, |p.instrs|)
    && CodeIntact(c.mem, words)
    && DataAgrees(p, c.mem, s.data)
  }

  // ---- memory writes keep what they must ----

  lemma StoreAgrees(p: Program, words: seq<Word>, c: State, s: SymState, a: Word, v: Word)
    requires Assembled(p, words) && IsData(p, a)
    requires StackAgrees(c, s, |p.instrs|) && CodeIntact(c.mem, words) && DataAgrees(p, c.mem, s.data)
    ensures var m := WriteWord(c.mem, a, v);
            StackAgrees(c.(mem := m), s, |p.instrs|) && CodeIntact(m, words)
            && DataAgrees(p, m, s.data[a / 2 := v])
  {
  }

  lemma CallAgrees(p: Program, words: seq<Word>, c: State, s: SymState, ret: nat)
    requires Assembled(p, words) && ret <= |p.instrs| && |s.stack| < MAX_DEPTH
    requires StackAgrees(c, s, |p.instrs|) && CodeIntact(c.mem, words) && DataAgrees(p, c.mem, s.data)
    ensures var m := WriteWord(c.mem, c.rsp - 2, 2 * ret);
            StackAgrees(c.(mem := m, rsp := c.rsp - 2), s.(stack := [ret] + s.stack), |p.instrs|)
            && CodeIntact(m, words) && DataAgrees(p, m, s.data)
  {
    var sp := c.rsp - 2;
    var m := WriteWord(c.mem, sp, 2 * ret);
    forall k | 0 <= k < |s.stack| + 1
      ensures ([ret] + s.stack)[k] <= |p.instrs| && ReadWord(m, sp + 2 * k) == 2 * ([ret] + s.stack)[k]
    {
      if k > 0 {
        assert ReadWord(c.mem, c.rsp + 2 * (k - 1)) == 2 * s.stack[k - 1];
      }
    }
  }

  lemma PopAgrees(c: State, s: SymState, count: nat)
    requires StackAgrees(c, s, count) && s.stack != []
    ensures ReadWord(c.mem, c.rsp) == 2 * s.stack[0] && s.stack[0] <= count
    ensures StackAgrees(c.(rsp := c.rsp + 2), s.(stack := s.stack[1..]), count)
  {
    hide ReadWord;
    assert ReadWord(c.mem, c.rsp + 2 * 0) == 2 * s.stack[0];
    var rest := s.stack[1..];
    forall k | 0 <= k < |rest|
      ensures rest[k] <= count && ReadWord(c.mem, c.rsp + 2 + 2 * k) == 2 * rest[k]
    {
      assert ReadWord(c.mem, c.rsp + 2 * (k + 1)) == 2 * s.stack[k + 1];
    }
  }

  // ---- branch targets ----

  lemma WrapAdd(x: int, y: int)
    ensures (x % 0x10000 + Int16(y)) % 0x10000 == (x + y) % 0x10000
  {
  }

  /** The word of a label branch at index i, executed with RIP past it, leads to
      2t modulo the address space, whenever encoding does not abort. */
  lemma JumpLands(p: Program, op: Opcode, name: string, i: nat, c: State, w: Word)
    requires IsBranch(op)
    requires EncodeBranch(p, op, LabelOperand(name), i) == Returns(w)
    requires c.rip == (2 * i + 2) % 0x10000
    ensures FindLabel(p.labels, name) >= 0
    ensures BranchTarget(c, w) == 2 * FindLabel(p.labels, name) % 0x10000
  {
    hide JumpImm, Int16;
    var t := FindLabel(p.labels, name);
    FindLabelFails(p.labels, name);
    var simm := ResolveLabel(p, name, i);
    assert simm == (t - i - 1) * 2;
    JumpImmLayout(op, Int16(simm));
    WrapAdd(2 * i + 2, simm);
  }

  /** A taken jump to a label whose displacement fits is encoded and lands on the
      label: RIP becomes 2t, and only a label that has no 16-bit address is
      missed. */
  lemma LabelJumpTaken(p: Program, op: Opcode, name: string, i: nat, c: State)
    requires IsBranch(op) && FindLabel(p.labels, name) >= 0
    requires -1024 <= 2 * (FindLabel(p.labels, name) - i - 1) <= 1023
    requires c.rip == 2 * i + 2
    ensures var r := EncodeBranch(p, op, LabelOperand(name), i);
            && r.Returns? && 0 <= r.value < 0x10000
            && (BranchTarget(c, r.value) == 2 * FindLabel(p.labels, name) <==> FindLabel(p.labels, name) < 0x8000)
            && (FindLabel(p.labels, name) < 0x8000 ==>
                  ExecJmp(c, r.value) == c.(rip := 2 * FindLabel(p.labels, name)))
  {
    hide JumpImm, BranchTarget;
    var t := FindLabel(p.labels, name);
    var simm := ResolveLabel(p, name, i);
    assert Int16(simm) == simm;
    JumpImmLayout(op, simm);
    JumpLands(p, op, name, i, c, JumpImm(op, simm));
  }

  // ---- operands mean the same in the word and in the instruction ----

  lemma RegisterOperand(w: Word, reg: Reg)
    requires OperandOf(w) == reg
    ensures w % 8 == reg
  {
    OperandLow3(w);
  }

  lemma SourceAgrees(p: Program, instr: Instr, i: nat, w: Word, c: State, s: SymState)
    requires instr.opcode == MOV || IsAlu(instr.opcode)
    requires EncodeInstr(p, instr, i) == Returns(w) && c.rv == s.rv
    ensures OpcodeOf(w) == instr.opcode && instr.opr1.RegOperand? && RegOf(w) == instr.opr1.reg
    ensures SymSource(s, instr.opr2) == Some(Source(c, w))
  {
    hide Encode, OpcodeOf, RegOf, ModeOf, OperandOf;
    var b := instr.opr2;
    if b.Imm? {
      EncodeLayout(instr.opcode, instr.opr1.reg, ImmOrAddr, b.imm % 0x100);
    } else {
      EncodeLayout(instr.opcode, instr.opr1.reg, Register, b.reg);
      RegisterOperand(w, b.reg);
    }
  }

  /** The parts of a LOAD or STORE: its data register and its bracketed operand. */
  ghost predicate MemoryParts(instr: Instr, reg: Reg, mem: MemRef) {
    || instr == Instr(LOAD, RegOperand(reg), Mem(mem))
    || instr == Instr(STORE, Mem(mem), RegOperand(reg))
  }

  lemma AddressAgrees(p: Program, instr: Instr, reg: Reg, mem: MemRef, i: nat, w: Word, c: State, s: SymState)
    requires MemoryParts(instr, reg, mem)
    requires EncodeInstr(p, instr, i) == Returns(w) && c.rv == s.rv
    ensures OpcodeOf(w) == instr.opcode && RegOf(w) == reg
    ensures SymAddress(p, s, mem) == Some(Source(c, w))
  {
    hide Encode, OpcodeOf, RegOf, ModeOf, OperandOf;
    var op := instr.opcode;
    match mem {
      case MemImm(imm) => EncodeLayout(op, reg, ImmOrAddr, imm % 0x100);
      case MemReg(r) => EncodeLayout(op, reg, Register, r); RegisterOperand(w, r);
      case MemLabel(name) => EncodeLayout(op, reg, ImmOrAddr, FindLabel(p.labels, name) % 0x100);
    }
  }

  lemma TargetAgrees(p: Program, instr: Instr, i: nat, w: Word, c: State, s: SymState)
    requires IsBranch(instr.opcode)
    requires EncodeInstr(p, instr, i) == Returns(w) && c.rv == s.rv && c.rip == 2 * i + 2
    requires LabelsInOrder(p.labels, |p.instrs|) && |p.instrs| <= MAX_INSTRS
    ensures OpcodeOf(w) == instr.opcode
    ensures match SymTarget(p, s, instr.opr1)
            case Unknown => false
            case Bad => BadAddress(BranchTarget(c, w))
            case At(t) => t <= 0x7FFF && BranchTarget(c, w) == 2 * t
  {
    hide Encode, OpcodeOf, JumpModeOf, JumpOffsetOf, JumpImm, JumpReg;
    var op, a := instr.opcode, instr.opr1;
    EncodedOpcode(p, instr, i, w);
    if a.LabelOperand? {
      JumpLands(p, op, a.name, i, c, w);
      FindLabelLowest(p.labels, |p.instrs|, a.name);
    } else {
      JumpRegLayout(op, a.reg);
    }
  }

  // ---- one step, by kind of instruction ----

  /** The machine has fetched the word of instruction i and is about to execute
      it; the symbolic machine is about to execute the instruction. */
  ghost predicate Ready(p: Program, words: seq<Word>, c: State, s: SymState, i: nat) {
    && Assembled(p, words) && i < |words|
    && Agree(p, words, c, s)
    && !s.halt && s.index == i + 1
  }

  lemma StepData(p: Program, words: seq<Word>, c: State, s: SymState, i: nat)
    requires Ready(p, words, c, s, i) && (p.instrs[i].opcode == MOV || IsAlu(p.instrs[i].opcode))
    requires SymExec(p, p.instrs[i], s).Some?
    ensures Agree(p, words, Execute(c, words[i]), SymExec(p, p.instrs[i], s).value)
  {
    hide EncodeInstr, OpcodeOf, RegOf, Source, SymSource, Alu;
    SourceAgrees(p, p.instrs[i], i, words[i], c, s);
  }

  lemma StepMemory(p: Program, words: seq<Word>, c: State, s: SymState, i: nat)
    requires Ready(p, words, c, s, i) && (p.instrs[i].opcode == LOAD || p.instrs[i].opcode == STORE)
    requires SymExec(p, p.instrs[i], s).Some?
    ensures Agree(p, words, Execute(c, words[i]), SymExec(p, p.instrs[i], s).value)
  {
    hide EncodeInstr, OpcodeOf, RegOf, Source, SymAddress;
    var instr, w := p.instrs[i], words[i];
    if instr.opcode == LOAD {
      AddressAgrees(p, instr, instr.opr1.reg, instr.opr2.mem, i, w, c, s);
    } else {
      AddressAgrees(p, instr, instr.opr2.reg, instr.opr1.mem, i, w, c, s);
      var a := Source(c, w);
      if !BadAddress(a) {
        StoreAgrees(p, words, c, s, a, c.rv[RegOf(w)]);
      }
    }
  }

  lemma StepBranch(p: Program, words: seq<Word>, c: State, s: SymState, i: nat)
    requires Ready(p, words, c, s, i) && IsBranch(p.instrs[i].opcode)
    requires SymExec(p, p.instrs[i], s).Some?
    ensures Agree(p, words, Execute(c, words[i]), SymExec(p, p.instrs[i], s).value)
  {
    hide EncodeInstr, OpcodeOf, BranchTarget, SymTarget;
    var instr, w := p.instrs[i], words[i];
    TargetAgrees(p, instr, i, w, c, s);
    if instr.opcode == CALL && |s.stack| < MAX_DEPTH {
      CallAgrees(p, words, c, s, s.index);
    }
  }

  lemma StepRet(p: Program, words: seq<Word>, c: State, s: SymState, i: nat)
    requires Ready(p, words, c, s, i) && p.instrs[i].opcode == RET
    ensures SymExec(p, p.instrs[i], s).Some?
    ensures Agree(p, words, Execute(c, words[i]), SymExec(p, p.instrs[i], s).value)
  {
    hide OpcodeOf, ReadWord;
    RetLayout();
    if s.stack != [] {
      PopAgrees(c, s, |p.instrs|);
    }
  }

  /** A cycle of the machine is a step of the program. */
  lemma StepSimulated(p: Program, words: seq<Word>, c: State, s: SymState)
    requires Assembled(p, words) && Agree(p, words, c, s)
    requires SymStep(p, s).Some?
    ensures Agree(p, words, Cycle(c), SymStep(p, s).value)
  {
    hide Execute, SymExec, EncodeInstr;
    if !s.halt {
      var i := s.index;
      var op := p.instrs[i].opcode;
      var c', s' := c.(rip := c.rip + 2), s.(index := i + 1);
      assert Fetch(c) == words[i];
      assert Ready(p, words, c', s', i);
      if op == MOV || IsAlu(op) {
        StepData(p, words, c', s', i);
      } else if op == LOAD || op == STORE {
        StepMemory(p, words, c', s', i);
      } else if op == RET {
        StepRet(p, words, c', s', i);
      } else {
        StepBranch(p, words, c', s', i);
      }
    }
  }

  /** Lock-step simulation over runs of any length. */
  lemma {:induction false} RunSimulated(p: Program, words: seq<Word>, c: State, s: SymState, n: nat)
    requires Assembled(p, words) && Agree(p, words, c, s)
    requires SymRun(p, s, n).Some?
    ensures Agree(p, words, Run(c, n), SymRun(p, s, n).value)
  {
    hide Cycle, SymStep, Agree, Assembled;
    if n > 0 {
      RunSimulated(p, words, c, s, n - 1);
      StepSimulated(p, words, Run(c, n - 1), SymRun(p, s, n - 1).value);
    }
  }

  /** The loaded image and the program start in agreement. */
  lemma StartsAgree(p: Program, words: seq<Word>)
    requires Assembled(p, words)
    ensures Agree(p, words, Load(Initial(), Image(words)), SymInitial())
  {
    hide Image, EncodeInstr;
    var c := Load(Initial(), Image(words));
    forall i | 0 <= i < |words|
      ensures ReadWord(c.mem, 2 * i) == words[i]
    {
      FetchLoaded(Initial(), words, i);
    }
    forall a: Word | IsData(p, a)
      ensures ReadWord(c.mem, a) == 0
    {
      LoadedRest(Initial(), words, a);
      LoadedRest(Initial(), words, a + 1);
    }
  }

  /** The next cycle is one the symbolic semantics does not describe: it would
      execute past the program, or access code or stack as data. */
  ghost predicate LeavesModel(p: Program, c: State)
    requires |p.instrs| <= MAX_INSTRS
  {
    && !c.halt
    && (|| c.rip >= 2 * |p.instrs|
        || (var w := Fetch(c);
            && (OpcodeOf(w) == LOAD || OpcodeOf(w) == STORE)
            && var a := Source(c, w);
               a % 2 == 0 && (a < 2 * |p.instrs| || 0xF000 <= a <= 0xFEFF)))
  }

  /** The semantics is undefined on those cycles and on no others. */
  lemma DefinedExactly(p: Program, words: seq<Word>, c: State, s: SymState)
    requires Assembled(p, words) && Agree(p, words, c, s)
    ensures SymStep(p, s).None? <==> LeavesModel(p, c)
  {
    hide Encode, JumpImm, JumpReg, OpcodeOf, RegOf, Source, SymSource, SymAddress, SymTarget, Alu;
    if !s.halt && s.index < |p.instrs| {
      var i, instr := s.index, p.instrs[s.index];
      var w, s' := words[i], s.(index := i + 1);
      assert ReadWord(c.mem, 2 * i) == w;
      assert EncodeInstr(p, instr, i) == Returns(w);
      var op := instr.opcode;
      EncodedOpcode(p, instr, i, w);
      if op == MOV || IsAlu(op) {
        SourceAgrees(p, instr, i, w, c, s');
      } else if op == LOAD {
        AddressAgrees(p, instr, instr.opr1.reg, instr.opr2.mem, i, w, c, s');
      } else if op == STORE {
        AddressAgrees(p, instr, instr.opr2.reg, instr.opr1.mem, i, w, c, s');
      } else if IsBranch(op) {
        TargetAgrees(p, instr, i, w, c.(rip := c.rip + 2), s');
      }
    }
  }

  /** Assembler correctness.  Load the emitted bytes into a new machine.  For as
      long as the run stays in the program and keeps off code and stack as data,
      the program's own semantics is defined, and n cycles agree with n steps. */
  lemma {:induction false} AssemblerCorrect(p: Program, words: seq<Word>, n: nat)
    requires Assembled(p, words)
    requires forall k :: 0 <= k < n ==> !LeavesModel(p, Run(Load(Initial(), Image(words)), k))
    ensures SymRun(p, SymInitial(), n).Some?
    ensures Agree(p, words, Run(Load(Initial(), Image(words)), n), SymRun(p, SymInitial(), n).value)
  {
    hide Cycle, SymStep, Agree, EncodesTo, Image, LabelsInOrder, LeavesModel;
    var c := Load(Initial(), Image(words));
    StartsAgree(p, words);
    if n > 0 {
      AssemblerCorrect(p, words, n - 1);
      DefinedExactly(p, words, Run(c, n - 1), SymRun(p, SymInitial(), n - 1).value);
      StepSimulated(p, words, Run(c, n - 1), SymRun(p, SymInitial(), n - 1).value);
    }
  }

  /** A program that halts makes the run loop stop, in an agreeing state. */
  lemma HaltsTogether(p: Program, words: seq<Word>, n: nat, m: nat)
    requires Assembled(p, words)
    requires SymRun(p, SymInitial(), n).Some? && SymRun(p, SymInitial(), n).value.halt
    ensures var c := Load(Initial(), Image(words));
            && Stops(c)
            && (Stopped(Run(c, m)) ==>
                  Run(c, m).halt && Agree(p, words, Run(c, m), SymRun(p, SymInitial(), n).value))
  {
    hide Cycle, SymStep, EncodesTo, LabelsInOrder, StackAgrees, CodeIntact, DataAgrees, Image;
    var c := Load(Initial(), Image(words));
    StartsAgree(p, words);
    RunSimulated(p, words, c, SymInitial(), n);
    assert Stopped(Run(c, n));
    if Stopped(Run(c, m)) {
      if m <= n { StoppedForever(c, m, n); } else { StoppedForever(c, n, m); }
    }
  }
}
