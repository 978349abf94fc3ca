/** What the parser accepts against what the encoder can encode
    (rocketasm/parser.c, rocketasm/encoder.c). */
module Agreement {
  import opened Isa
  import opened WordFormat
  import opened ProgramStore
  import opened Encoder
  import opened Grammar

  /** A control-flow instruction whose target is a number. */
  predicate NumericTarget(i: Instr) { IsBranch(i.opcode) && i.opr1.Imm? }

  /** The label an instruction's encoding looks up, in a jump or in brackets. */
  predicate UsesLabel(i: Instr, name: string) {
    || (IsBranch(i.opcode) && i.opr1 == LabelOperand(name))
    || (i.opcode == LOAD && i.opr2 == Mem(MemLabel(name)))
    || (i.opcode == STORE && i.opr1 == Mem(MemLabel(name)))
  }

  ghost predicate Undefined(p: Program, i: Instr) {
    exists name :: UsesLabel(i, name) && FindLabel(p.labels, name) == -1
  }

  /** A jump to a label whose displacement does not fit 11 bits once it has been
      converted to int16_t, where the encoder asserts. */
  ghost predicate OutOfReach(p: Program, i: Instr, index: nat) {
    && IsBranch(i.opcode) && i.opr1.LabelOperand?
    && FindLabel(p.labels, i.opr1.name) >= 0
    && !(-1024 <= Int16(2 * (FindLabel(p.labels, i.opr1.name) - index - 1)) <= 1023)
  }

  /** The encoder refuses an accepted instruction for two reasons only, and
      asserts for one. */
  lemma EncoderRefuses(p: Program, i: Instr, index: nat)
    requires WritableInstr(i)
    ensures EncodeInstr(p, i, index) == Returns(-1) <==> NumericTarget(i) || Undefined(p, i)
    ensures EncodeInstr(p, i, index) == Aborts <==> OutOfReach(p, i, index)
  {
    hide Encode, JumpImm, JumpReg, RetWord, Int16;
    var op, a, b := i.opcode, i.opr1, i.opr2;
    if IsBranch(op) {
      if a.LabelOperand? {
        FindLabelFails(p.labels, a.name);
        assert UsesLabel(i, a.name);
        if FindLabel(p.labels, a.name) >= 0 { WordNotSentinel(op, ResolveLabel(p, a.name, index)); }
      } else if a.RegOperand? {
        JumpRegLayout(op, a.reg);
      }
    } else if op == LOAD {
      MemoryRefused(p, op, a.reg, b.mem);
      assert b.mem.MemLabel? ==> UsesLabel(i, b.mem.name);
    } else if op == STORE {
      MemoryRefused(p, op, b.reg, a.mem);
      assert a.mem.MemLabel? ==> UsesLabel(i, a.mem.name);
    } else if op != RET {
      if b.Imm? {
        EncodeLayout(op, a.reg, ImmOrAddr, b.imm % 0x100);
      } else {
        EncodeLayout(op, a.reg, Register, b.reg);
      }
    }
  }

  lemma MemoryRefused(p: Program, op: Opcode, reg: Reg, mem: MemRef)
    requires mem != MemNone
    ensures EncodeMemory(p, op, reg, mem).Returns?
    ensures EncodeMemory(p, op, reg, mem) == Returns(-1)
       <==> mem.MemLabel? && FindLabel(p.labels, mem.name) == -1
  {
    hide Encode;
    match mem {
      case MemImm(imm) => EncodeLayout(op, reg, ImmOrAddr, imm % 0x100);
      case MemReg(r) => EncodeLayout(op, reg, Register, r);
      case MemLabel(name) =>
        FindLabelFails(p.labels, name);
        EncodeLayout(op, reg, ImmOrAddr, FindLabel(p.labels, name) % 0x100);
    }
  }

  lemma WordNotSentinel(op: Opcode, simm: int)
    ensures EncodeJump(op, simm) != Returns(-1)
    ensures EncodeJump(op, simm) == Aborts <==> !(-1024 <= Int16(simm) <= 1023)
  {
    hide JumpImm, Int16;
    if -1024 <= Int16(simm) <= 1023 {
      JumpImmLayout(op, Int16(simm));
    }
  }

  /** Instruction k gives the encoder no reason to refuse or assert. */
  ghost predicate Encodable(p: Program, k: nat)
    requires k < |p.instrs|
  {
    !NumericTarget(p.instrs[k]) && !Undefined(p, p.instrs[k]) && !OutOfReach(p, p.instrs[k], k)
  }

  /** The emission loop completes on a program of accepted instructions exactly
      when no instruction has a numeric target, an undefined label or a label out
      of reach. */
  lemma AssemblesExactly(p: Program)
    requires forall i :: i in p.instrs ==> WritableInstr(i)
    ensures (exists words :: Assembles(p, words)) <==> forall k :: 0 <= k < |p.instrs| ==> Encodable(p, k)
  {
    hide EncodeInstr, WritableInstr, NumericTarget, Undefined, OutOfReach;
    forall k | 0 <= k < |p.instrs|
      ensures Encodable(p, k) <==>
                EncodeInstr(p, p.instrs[k], k) != Returns(-1) && EncodeInstr(p, p.instrs[k], k) != Aborts
    {
      EncoderRefuses(p, p.instrs[k], k);
    }
    if forall k :: 0 <= k < |p.instrs| ==> Encodable(p, k) {
      var words := WordsUpTo(p, |p.instrs|);
      assert Assembles(p, words);
    }
  }

  lemma {:induction false} WordsUpTo(p: Program, n: nat) returns (words: seq<Word>)
    requires n <= |p.instrs|
    requires forall k :: 0 <= k < n ==>
               EncodeInstr(p, p.instrs[k], k) != Returns(-1) && EncodeInstr(p, p.instrs[k], k) != Aborts
    ensures |words| == n && EncodesTo(p, words)
  {
    hide EncodeInstr;
    words := [];
    if n > 0 {
      var front := WordsUpTo(p, n - 1);
      EncodeInstrRange(p, p.instrs[n - 1], n - 1);
      words := front + [EncodeInstr(p, p.instrs[n - 1], n - 1).value];
    }
  }

  // ---- the reach of label jumps ----

  /** The mathematical displacement of a jump at index i to a label at t. */
  function Displacement(t: int, i: int): int { 2 * (t - i - 1) }

  /** When the encoder does not abort, the emitted offset is the displacement
      exactly if the displacement fits 11 bits. */
  lemma OffsetExactly(p: Program, op: Opcode, name: string, i: nat, w: Word)
    requires IsBranch(op)
    requires EncodeBranch(p, op, LabelOperand(name), i) == Returns(w)
    ensures JumpOffsetOf(w) == Displacement(FindLabel(p.labels, name), i)
       <==> -1024 <= Displacement(FindLabel(p.labels, name), i) <= 1023
  {
    hide JumpImm;
    FindLabelFails(p.labels, name);
    JumpImmLayout(op, Int16(ResolveLabel(p, name, i)));
  }

  /** In a program that fits the executable region the conversion to int16_t
      loses nothing, so the assert tests the displacement itself. */
  lemma ReachInSmallPrograms(p: Program, i: Instr, index: nat)
    requires |p.instrs| <= 16383 && index < |p.instrs| && LabelsInOrder(p.labels, |p.instrs|)
    requires IsBranch(i.opcode) && i.opr1.LabelOperand? && FindLabel(p.labels, i.opr1.name) >= 0
    ensures OutOfReach(p, i, index)
       <==> !(-1024 <= Displacement(FindLabel(p.labels, i.opr1.name), index) <= 1023)
  {
    FindLabelLowest(p.labels, |p.instrs|, i.opr1.name);
  }

  /** A label branch is encoded as a word whose offset is not its displacement. */
  ghost predicate WrongOffset(p: Program, op: Opcode, name: string, i: nat) {
    var r := EncodeBranch(p, op, LabelOperand(name), i);
    && r.Returns? && 0 <= r.value < 0x10000
    && JumpOffsetOf(r.value) != Displacement(FindLabel(p.labels, name), i)
  }

  /** In a larger one it can lose something, and the assert then misses it,
      exactly when the displacement is out of range and its conversion is not. */
  lemma SlipsExactly(p: Program, op: Opcode, name: string, i: nat)
    requires IsBranch(op)
    ensures WrongOffset(p, op, name, i)
       <==> && FindLabel(p.labels, name) >= 0
            && -1024 <= Int16(Displacement(FindLabel(p.labels, name), i)) <= 1023
            && !(-1024 <= Displacement(FindLabel(p.labels, name), i) <= 1023)
  {
    hide JumpImm, Int16, JumpOffsetOf;
    FindLabelFails(p.labels, name);
    var t := FindLabel(p.labels, name);
    if t >= 0 {
      var narrow := Int16(Displacement(t, i));
      if -1024 <= narrow <= 1023 {
        JumpImmLayout(op, narrow);
        Int16Fits(Displacement(t, i));
      }
    }
  }

  lemma Int16Fits(x: int)
    ensures Int16(x) == x <==> -0x8000 <= x < 0x8000
  {
  }
}
