/** Packing and unpacking of instruction words (rocketvm/common/isa/encoder.h)
    and the second decoder used by the control-flow handlers. */
module WordFormat {
  import opened Isa
  import opened Bits

  /** `rvm_instr_t`. */
  datatype Decoded = Decoded(raw: Word, opcode: nat, reg: nat, mode: nat, operand: nat)

  function ModeBit(m: Mode): nat { if m == ImmOrAddr then 0 else 1 }

  function Encode(op: Opcode, reg: Reg, mode: Mode, operand: Byte): nat {
    Or(Or(Or(Shl(And(OpcodeValue(op), 0xF), 12),
             Shl(And(reg, 0x7), 9)),
          Shl(And(ModeBit(mode), 0x1), 8)),
       And(operand, 0xFF))
  }

  function Decode(w: Word): Decoded {
    Decoded(w, And(Shr(w, 12), 0xF), And(Shr(w, 9), 0x7), And(Shr(w, 8), 0x1), And(w, 0xFF))
  }

  /** `rvm_jmp_imm`, `rvm_jz_imm`, `rvm_jnz_imm`, `rvm_call_imm`: the same word
      but for the opcode.  The precondition is their assert. */
  function JumpImm(op: Opcode, simm: int): nat
    requires -1024 <= simm <= 1023
  {
    Or(Or(Shl(And(OpcodeValue(op), 0xF), 12), Shl(0, 11)), And(simm % 0x10000, 0x7FF))
  }

  /** `rvm_jmp_reg`, `rvm_jz_reg`, `rvm_jnz_reg`, `rvm_call_reg`. */
  function JumpReg(op: Opcode, reg: Reg): nat {
    Or(Or(Shl(And(OpcodeValue(op), 0xF), 12), Shl(1, 11)), And(reg, 0x7))
  }

  function RetWord(): nat { Shl(And(OpcodeValue(RET), 0xF), 12) }

  /** The offset expression of the JMP and CALL handlers. */
  function SignExtend11(raw: nat): int {
    if And(raw, 0x400) != 0 then Int16(Or(raw, 0xF800)) else Int16(raw)
  }

  // ---- the fields are where the layout says ----

  lemma MaskValues(x: nat)
    ensures And(x, 0x1) == x % 2 && And(x, 0x7) == x % 8 && And(x, 0xF) == x % 16
    ensures And(x, 0xFF) == x % 0x100 && And(x, 0x7FF) == x % 0x800
  {
    hide And, Or, Pow2, Shl, Shr;
    Pow2Values();
    AndLowMask(x, 1);
    AndLowMask(x, 3);
    AndLowMask(x, 4);
    AndLowMask(x, 8);
    AndLowMask(x, 11);
  }

  lemma ShiftValues(x: nat)
    ensures Shl(x, 8) == x * 0x100 && Shl(x, 9) == x * 0x200
    ensures Shl(x, 11) == x * 0x800 && Shl(x, 12) == x * 0x1000
    ensures Shr(x, 8) == x / 0x100 && Shr(x, 9) == x / 0x200
    ensures Shr(x, 11) == x / 0x800 && Shr(x, 12) == x / 0x1000
  {
    hide Pow2, Shr;
    Pow2Values();
    ShrIsQuotient(x, 8);
    ShrIsQuotient(x, 9);
    ShrIsQuotient(x, 11);
    ShrIsQuotient(x, 12);
  }

  /** `OrDisjoint` at one position, with the shift written out. */
  lemma OrAt(hi: nat, lo: nat, k: nat, p: nat)
    requires p == Pow2(k) && lo < p
    ensures Or(hi * p, lo) == hi * p + lo
  {
    OrDisjoint(hi, lo, k);
  }

  /** Packing four fields of 4, 3, 1 and 8 bits by `|` is addition. */
  lemma PackFields(v: nat, r: nat, m: nat, b: nat)
    requires v < 16 && r < 8 && m < 2 && b < 0x100
    ensures Or(Or(Or(v * 0x1000, r * 0x200), m * 0x100), b)
         == v * 0x1000 + r * 0x200 + m * 0x100 + b
  {
    hide And, Or, Pow2;
    Pow2Values();
    OrAt(v, r * 0x200, 12, 0x1000);
    OrAt(v * 8 + r, m * 0x100, 9, 0x200);
    OrAt(v * 16 + r * 2 + m, b, 8, 0x100);
  }

  lemma EncodeValue(op: Opcode, reg: Reg, mode: Mode, operand: Byte)
    ensures Encode(op, reg, mode, operand)
         == OpcodeValue(op) * 0x1000 + reg * 0x200 + ModeBit(mode) * 0x100 + operand
  {
    hide And, Or, Pow2, Shl, Shr;
    var v, m := OpcodeValue(op), ModeBit(mode);
    MaskValues(v);
    MaskValues(reg);
    MaskValues(m);
    MaskValues(operand);
    ShiftValues(v);
    ShiftValues(reg);
    ShiftValues(m);
    PackFields(v, reg, m, operand);
  }

  /** `rvm_decode` reads exactly the layout fields of a word. */
  lemma DecodeFields(w: Word)
    ensures Decode(w).raw == w
    ensures Decode(w).opcode == OpcodeValue(OpcodeOf(w))
    ensures Decode(w).reg == RegOf(w)
    ensures Decode(w).mode == ModeBit(ModeOf(w))
    ensures Decode(w).operand == OperandOf(w)
  {
    hide And, Or, Pow2, Shl, Shr;
    Pow2Values();
    ShiftValues(w);
    MaskValues(w / 0x1000);
    MaskValues(w / 0x200);
    MaskValues(w / 0x100);
    MaskValues(w);
  }

  /** Decoding an encoded word gives back all four fields. */
  lemma DecodeEncode(op: Opcode, reg: Reg, mode: Mode, operand: Byte)
    ensures Encode(op, reg, mode, operand) < 0x10000
    ensures Decode(Encode(op, reg, mode, operand))
         == Decoded(Encode(op, reg, mode, operand), OpcodeValue(op), reg, ModeBit(mode), operand)
  {
    hide And, Or, Pow2, Shl, Shr;
    EncodeValue(op, reg, mode, operand);
    var w := Encode(op, reg, mode, operand);
    DecodeFields(w);
    assert w / 0x100 == OpcodeValue(op) * 16 + reg * 2 + ModeBit(mode);
    assert w / 0x200 == OpcodeValue(op) * 8 + reg;
  }

  lemma LayoutCoversWord(w: Word)
    ensures w == w / 0x1000 * 0x1000 + RegOf(w) * 0x200 + ModeBit(ModeOf(w)) * 0x100 + OperandOf(w)
  {
    var q := w / 0x100;
    assert w == q * 0x100 + w % 0x100;
    assert q == q / 2 * 2 + q % 2;
    assert q / 2 == q / 2 / 8 * 8 + q / 2 % 8;
    assert w / 0x200 == q / 2 && w / 0x1000 == q / 2 / 8;
  }

  /** Encoding the decoded fields of any word gives the word back. */
  lemma EncodeDecode(w: Word)
    ensures Decode(w).opcode < 16 && Decode(w).reg < 8 && Decode(w).operand < 0x100
    ensures Encode(OpcodeAt(Decode(w).opcode), Decode(w).reg,
                   if Decode(w).mode == 0 then ImmOrAddr else Register, Decode(w).operand) == w
  {
    hide And, Or, Pow2, Shl, Shr;
    DecodeFields(w);
    EncodeValue(OpcodeOf(w), RegOf(w), ModeOf(w), OperandOf(w));
    LayoutCoversWord(w);
  }

  /** The fields of a format A/B word, as the machine semantics reads them. */
  lemma EncodeLayout(op: Opcode, reg: Reg, mode: Mode, operand: Byte)
    ensures Encode(op, reg, mode, operand) < 0x10000
    ensures var w := Encode(op, reg, mode, operand);
            OpcodeOf(w) == op && RegOf(w) == reg && ModeOf(w) == mode && OperandOf(w) == operand
  {
    DecodeEncode(op, reg, mode, operand);
    var w := Encode(op, reg, mode, operand);
    DecodeFields(w);
    OpcodeAtValue(op);
    OpcodeAtValue(OpcodeOf(w));
  }

  lemma OpcodeAtValue(op: Opcode)
    ensures OpcodeAt(OpcodeValue(op)) == op
  {
  }

  /** The low three bits of the operand are those of the word. */
  lemma OperandLow3(w: Word)
    ensures OperandOf(w) % 8 == w % 8
  {
    var q, r := w / 0x100, w % 0x100;
    assert w == 8 * (0x20 * q + r / 8) + r % 8;
    DivUnique(w, 8, 0x20 * q + r / 8, r % 8);
  }

  // ---- format C ----

  lemma SignExtendValue(raw: nat)
    requires raw < 0x800
    ensures SignExtend11(raw) == if raw < 0x400 then raw else raw - 0x800
  {
    hide And, Or, Pow2, Bit;
    Pow2Values();
    AndOneBit(raw, 10);
    BitIsQuotient(raw, 10);
    if raw >= 0x400 {
      OrComm(raw, 0xF800);
      OrAt(0x1F, raw, 11, 0x800);
    }
  }

  lemma SignExtendMeaning(w: Word)
    ensures And(w, 0x7FF) == w % 0x800
    ensures SignExtend11(w % 0x800) == JumpOffsetOf(w)
    ensures And(Shr(w, 11), 0x1) == ModeBit(JumpModeOf(w))
  {
    hide And, Or, Pow2, Shl, Shr;
    Pow2Values();
    MaskValues(w);
    MaskValues(w / 0x800);
    ShiftValues(w);
    SignExtendValue(w % 0x800);
  }

  lemma {:induction false} OrComm(x: nat, y: nat)
    ensures Or(x, y) == Or(y, x)
  {
    if x > 0 && y > 0 { OrComm(x / 2, y / 2); }
  }

  lemma JumpImmValue(op: Opcode, simm: int)
    requires -1024 <= simm <= 1023
    ensures JumpImm(op, simm) == OpcodeValue(op) * 0x1000 + (if simm >= 0 then simm else simm + 0x800)
  {
    hide And, Or, Pow2, Shl, Shr;
    Pow2Values();
    var v := OpcodeValue(op);
    MaskValues(v);
    MaskValues(simm % 0x10000);
    DivUnique(simm, 0x10000, if simm >= 0 then 0 else -1, if simm >= 0 then simm else simm + 0x10000);
    ShiftValues(v);
    ShiftValues(0);
    OrAt(v, 0, 12, 0x1000);
    OrAt(v * 2, simm % 0x10000 % 0x800, 11, 0x800);
  }

  /** The displacement survives the 11-bit field: mask, then sign extension. */
  lemma JumpImmLayout(op: Opcode, simm: int)
    requires -1024 <= simm <= 1023
    ensures JumpImm(op, simm) < 0x10000
    ensures var w := JumpImm(op, simm);
            OpcodeOf(w) == op && JumpModeOf(w) == ImmOrAddr && JumpOffsetOf(w) == simm
  {
    hide And, Or, Pow2, Shl, Shr;
    JumpImmValue(op, simm);
    OpcodeAtValue(op);
  }

  lemma JumpRegValue(op: Opcode, reg: Reg)
    ensures JumpReg(op, reg) == OpcodeValue(op) * 0x1000 + 0x800 + reg
  {
    hide And, Or, Pow2, Shl, Shr;
    Pow2Values();
    var v := OpcodeValue(op);
    MaskValues(v);
    MaskValues(reg);
    ShiftValues(v);
    ShiftValues(1);
    OrAt(v, 0x800, 12, 0x1000);
    OrAt(v * 2 + 1, reg, 11, 0x800);
  }

  lemma JumpRegLayout(op: Opcode, reg: Reg)
    ensures JumpReg(op, reg) < 0x10000
    ensures var w := JumpReg(op, reg);
            OpcodeOf(w) == op && JumpModeOf(w) == Register && w % 8 == reg
  {
    hide JumpReg;
    JumpRegValue(op, reg);
    OpcodeAtValue(op);
  }

  lemma RetLayout()
    ensures RetWord() == 0xF000 && OpcodeOf(RetWord()) == RET
  {
    hide And, Or, Pow2, Shl, Shr;
    Pow2Values();
    MaskValues(0xF);
    ShiftValues(0xF);
    OpcodeAtValue(RET);
  }
}
