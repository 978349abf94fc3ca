/** The instruction set: machine integers, opcodes, and the layout of a word.

    Formats A and B pack opcode(4) | reg(3) | mode(1) | operand(8); format C
    packs opcode(4) | mode(1) | operand(11).  The fields of a word are given
    here by division and remainder; module `WordFormat` models the shifts and
    masks that compute them. */
module Isa {

  type Byte = x: int | 0 <= x < 0x100
  type Word = x: int | 0 <= x < 0x10000
  type Int32 = x: int | -0x8000_0000 <= x < 0x8000_0000
  type Reg = x: int | 0 <= x < 8

  datatype Opcode =
    | MOV | LOAD | STORE
    | ADD | SUB | MUL | DIV | MOD | SHL | SHR
    | CMP | JMP | JZ | JNZ | CALL | RET

  datatype Mode = ImmOrAddr | Register

  function OpcodeValue(op: Opcode): (v: int)
    ensures 0 <= v < 16
  {
    match op
    case MOV => 0x0
    case LOAD => 0x1
    case STORE => 0x2
    case ADD => 0x3
    case SUB => 0x4
    case MUL => 0x5
    case DIV => 0x6
    case MOD => 0x7
    case SHL => 0x8
    case SHR => 0x9
    case CMP => 0xA
    case JMP => 0xB
    case JZ => 0xC
    case JNZ => 0xD
    case CALL => 0xE
    case RET => 0xF
  }

  /** Every 4-bit value names an opcode. */
  function OpcodeAt(v: int): (op: Opcode)
    requires 0 <= v < 16
    ensures OpcodeValue(op) == v
  {
    if v == 0x0 then MOV else if v == 0x1 then LOAD else if v == 0x2 then STORE
    else if v == 0x3 then ADD else if v == 0x4 then SUB else if v == 0x5 then MUL
    else if v == 0x6 then DIV else if v == 0x7 then MOD else if v == 0x8 then SHL
    else if v == 0x9 then SHR else if v == 0xA then CMP else if v == 0xB then JMP
    else if v == 0xC then JZ else if v == 0xD then JNZ else if v == 0xE then CALL
    else RET
  }

  predicate IsBranch(op: Opcode) {
    op == JMP || op == JZ || op == JNZ || op == CALL
  }

  /** ADD..SHR and CMP: the instructions that set flags. */
  predicate IsAlu(op: Opcode) {
    op == ADD || op == SUB || op == MUL || op == DIV || op == MOD || op == SHL || op == SHR || op == CMP
  }

  // ---- fields of a word ----

  function OpcodeOf(w: Word): Opcode { OpcodeAt(w / 0x1000) }

  function RegOf(w: Word): Reg { w / 0x200 % 8 }

  function ModeOf(w: Word): Mode { if w / 0x100 % 2 == 0 then ImmOrAddr else Register }

  function OperandOf(w: Word): Byte { w % 0x100 }

  function JumpModeOf(w: Word): Mode { if w / 0x800 % 2 == 0 then ImmOrAddr else Register }

  /** The 11-bit operand of format C read as a two's complement number. */
  function JumpOffsetOf(w: Word): int {
    if w % 0x800 < 0x400 then w % 0x800 else w % 0x800 - 0x800
  }

  // ---- C integer conversions ----

  /** Conversion to int16_t. */
  function Int16(x: int): (r: int)
    ensures -0x8000 <= r < 0x8000 && (x - r) % 0x10000 == 0
  {
    if x % 0x10000 < 0x8000 then x % 0x10000 else x % 0x10000 - 0x10000
  }

  /** The signed value of a register. */
  function Signed(x: Word): int { if x < 0x8000 then x else x - 0x10000 }
}
