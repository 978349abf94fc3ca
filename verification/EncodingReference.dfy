/** The word of every instruction the assembler can encode, written out. */
module EncodingReference {
  import opened Isa
  import opened Bits
  import opened WordFormat
  import opened ProgramStore
  import opened Encoder

  /** `op reg, imm` and `op reg, reg`. */
  lemma DataWords(p: Program, k: nat, r: Reg, q: Reg, n: Int32)
    ensures EncodeInstr(p, Instr(MOV, RegOperand(r), Imm(n)), k) == Returns(0x0000 + 0x200 * r + n % 0x100)
    ensures EncodeInstr(p, Instr(ADD, RegOperand(r), Imm(n)), k) == Returns(0x3000 + 0x200 * r + n % 0x100)
    ensures EncodeInstr(p, Instr(SUB, RegOperand(r), Imm(n)), k) == Returns(0x4000 + 0x200 * r + n % 0x100)
    ensures EncodeInstr(p, Instr(MUL, RegOperand(r), Imm(n)), k) == Returns(0x5000 + 0x200 * r + n % 0x100)
    ensures EncodeInstr(p, Instr(DIV, RegOperand(r), Imm(n)), k) == Returns(0x6000 + 0x200 * r + n % 0x100)
    ensures EncodeInstr(p, Instr(MOD, RegOperand(r), Imm(n)), k) == Returns(0x7000 + 0x200 * r + n % 0x100)
    ensures EncodeInstr(p, Instr(SHL, RegOperand(r), Imm(n)), k) == Returns(0x8000 + 0x200 * r + n % 0x100)
    ensures EncodeInstr(p, Instr(SHR, RegOperand(r), Imm(n)), k) == Returns(0x9000 + 0x200 * r + n % 0x100)
    ensures EncodeInstr(p, Instr(CMP, RegOperand(r), Imm(n)), k) == Returns(0xA000 + 0x200 * r + n % 0x100)
    ensures EncodeInstr(p, Instr(MOV, RegOperand(r), RegOperand(q)), k) == Returns(0x0100 + 0x200 * r + q)
    ensures EncodeInstr(p, Instr(ADD, RegOperand(r), RegOperand(q)), k) == Returns(0x3100 + 0x200 * r + q)
    ensures EncodeInstr(p, Instr(SUB, RegOperand(r), RegOperand(q)), k) == Returns(0x4100 + 0x200 * r + q)
    ensures EncodeInstr(p, Instr(MUL, RegOperand(r), RegOperand(q)), k) == Returns(0x5100 + 0x200 * r + q)
    ensures EncodeInstr(p, Instr(DIV, RegOperand(r), RegOperand(q)), k) == Returns(0x6100 + 0x200 * r + q)
    ensures EncodeInstr(p, Instr(MOD, RegOperand(r), RegOperand(q)), k) == Returns(0x7100 + 0x200 * r + q)
    ensures EncodeInstr(p, Instr(SHL, RegOperand(r), RegOperand(q)), k) == Returns(0x8100 + 0x200 * r + q)
    ensures EncodeInstr(p, Instr(SHR, RegOperand(r), RegOperand(q)), k) == Returns(0x9100 + 0x200 * r + q)
    ensures EncodeInstr(p, Instr(CMP, RegOperand(r), RegOperand(q)), k) == Returns(0xA100 + 0x200 * r + q)
  {
    hide Encode;
    forall op: Opcode
      ensures Encode(op, r, ImmOrAddr, n % 0x100) == 0x1000 * OpcodeValue(op) + 0x200 * r + n % 0x100
      ensures Encode(op, r, Register, q) == 0x1000 * OpcodeValue(op) + 0x200 * r + 0x100 + q
    {
      EncodeValue(op, r, ImmOrAddr, n % 0x100);
      EncodeValue(op, r, Register, q);
    }
  }

  /** `LOAD reg, [..]` and `STORE [..], reg`. */
  lemma MemoryWords(p: Program, k: nat, r: Reg, q: Reg, n: Int32)
    ensures EncodeInstr(p, Instr(LOAD, RegOperand(r), Mem(MemImm(n))), k) == Returns(0x1000 + 0x200 * r + n % 0x100)
    ensures EncodeInstr(p, Instr(LOAD, RegOperand(r), Mem(MemReg(q))), k) == Returns(0x1100 + 0x200 * r + q)
    ensures EncodeInstr(p, Instr(STORE, Mem(MemImm(n)), RegOperand(r)), k) == Returns(0x2000 + 0x200 * r + n % 0x100)
    ensures EncodeInstr(p, Instr(STORE, Mem(MemReg(q)), RegOperand(r)), k) == Returns(0x2100 + 0x200 * r + q)
  {
    hide Encode;
    EncodeValue(LOAD, r, ImmOrAddr, n % 0x100);
    EncodeValue(LOAD, r, Register, q);
    EncodeValue(STORE, r, ImmOrAddr, n % 0x100);
    EncodeValue(STORE, r, Register, q);
  }

  /** A label in brackets: its index modulo 256, if it is declared. */
  lemma MemoryLabelWords(p: Program, k: nat, r: Reg, name: string)
    ensures var t := FindLabel(p.labels, name);
            && EncodeInstr(p, Instr(LOAD, RegOperand(r), Mem(MemLabel(name))), k)
                 == Returns(if t < 0 then -1 else 0x1000 + 0x200 * r + t % 0x100)
            && EncodeInstr(p, Instr(STORE, Mem(MemLabel(name)), RegOperand(r)), k)
                 == Returns(if t < 0 then -1 else 0x2000 + 0x200 * r + t % 0x100)
  {
    hide Encode;
    var t := FindLabel(p.labels, name);
    if t >= 0 {
      EncodeValue(LOAD, r, ImmOrAddr, t % 0x100);
      EncodeValue(STORE, r, ImmOrAddr, t % 0x100);
    }
  }

  /** The word of a branch at index k to label index t: the byte displacement in
      eleven bits, if its low sixteen bits are a number from -1024 to 1023. */
  function LabelWord(base: int, t: int, k: nat): EncodeResult {
    var d := 2 * (t - k - 1);
    if t < 0 then Returns(-1)
    else if d % 0x10000 < 0x400 || d % 0x10000 >= 0xFC00 then Returns(base + d % 0x800)
    else Aborts
  }

  /** Control flow, whatever the second operand. */
  lemma BranchWords(p: Program, k: nat, r: Reg, name: string, b: Operand)
    ensures EncodeInstr(p, Instr(JMP, RegOperand(r), b), k) == Returns(0xB800 + r)
    ensures EncodeInstr(p, Instr(JZ, RegOperand(r), b), k) == Returns(0xC800 + r)
    ensures EncodeInstr(p, Instr(JNZ, RegOperand(r), b), k) == Returns(0xD800 + r)
    ensures EncodeInstr(p, Instr(CALL, RegOperand(r), b), k) == Returns(0xE800 + r)
    ensures var t := FindLabel(p.labels, name);
            && EncodeInstr(p, Instr(JMP, LabelOperand(name), b), k) == LabelWord(0xB000, t, k)
            && EncodeInstr(p, Instr(JZ, LabelOperand(name), b), k) == LabelWord(0xC000, t, k)
            && EncodeInstr(p, Instr(JNZ, LabelOperand(name), b), k) == LabelWord(0xD000, t, k)
            && EncodeInstr(p, Instr(CALL, LabelOperand(name), b), k) == LabelWord(0xE000, t, k)
  {
    hide JumpReg, EncodeBranch, LabelWord;
    JumpRegValue(JMP, r);
    JumpRegValue(JZ, r);
    JumpRegValue(JNZ, r);
    JumpRegValue(CALL, r);
    forall op: Opcode
      ensures EncodeBranch(p, op, RegOperand(r), k) == Returns(JumpReg(op, r))
      ensures EncodeBranch(p, op, LabelOperand(name), k)
           == LabelWord(0x1000 * OpcodeValue(op), FindLabel(p.labels, name), k)
    {
      LabelBranch(p, op, name, k);
      RegisterBranchResult(p, op, r, k);
    }
  }

  lemma RegisterBranchResult(p: Program, op: Opcode, r: Reg, k: nat)
    ensures EncodeBranch(p, op, RegOperand(r), k) == Returns(JumpReg(op, r))
  {
  }

  lemma LabelBranch(p: Program, op: Opcode, name: string, k: nat)
    ensures EncodeBranch(p, op, LabelOperand(name), k)
         == LabelWord(0x1000 * OpcodeValue(op), FindLabel(p.labels, name), k)
  {
    hide JumpImm, Int16;
    FindLabelFails(p.labels, name);
    var t := FindLabel(p.labels, name);
    if t >= 0 {
      var d := 2 * (t - k - 1);
      LowBits(d);
      if -1024 <= Int16(d) <= 1023 {
        JumpImmValue(op, Int16(d));
      }
    }
  }

  /** What the conversion to int16_t keeps. */
  lemma LowBits(d: int)
    ensures -1024 <= Int16(d) <= 1023 <==> d % 0x10000 < 0x400 || d % 0x10000 >= 0xFC00
    ensures -1024 <= Int16(d) <= 1023 ==> d % 0x800 == if Int16(d) >= 0 then Int16(d) else Int16(d) + 0x800
  {
    var q := d / 0x10000;
    assert d == 0x800 * (0x20 * q) + d % 0x10000;
    if d % 0x10000 < 0x400 {
      DivUnique(d, 0x800, 0x20 * q, d % 0x10000);
    } else if d % 0x10000 >= 0xFC00 {
      DivUnique(d, 0x800, 0x20 * q + 0x1F, d % 0x10000 - 0xF800);
    }
  }

  lemma ReturnWord(p: Program, k: nat, a: Operand, b: Operand)
    ensures EncodeInstr(p, Instr(RET, a, b), k) == Returns(0xF000)
  {
    RetLayout();
  }

  /** The operand shapes above. */
  predicate HasWord(i: Instr) {
    match i.opcode
    case RET => true
    case LOAD => i.opr1.RegOperand? && i.opr2.Mem? && i.opr2.mem != MemNone
    case STORE => i.opr1.Mem? && i.opr1.mem != MemNone && i.opr2.RegOperand?
    case JMP => i.opr1.RegOperand? || i.opr1.LabelOperand?
    case JZ => i.opr1.RegOperand? || i.opr1.LabelOperand?
    case JNZ => i.opr1.RegOperand? || i.opr1.LabelOperand?
    case CALL => i.opr1.RegOperand? || i.opr1.LabelOperand?
    case _ => i.opr1.RegOperand? && (i.opr2.Imm? || i.opr2.RegOperand?)
  }

  /** Every other shape is refused. */
  lemma OtherShapesRefused(p: Program, i: Instr, k: nat)
    requires !HasWord(i)
    ensures EncodeInstr(p, i, k) == Returns(-1)
  {
  }
}
