/** The CPU object and its instruction handlers (rocketvm/cpu).

    Each handler updates registers, flags and memory in place with the
    original's masks and bit tricks, and is proved to take the machine exactly
    to the state that module `Machine` gives by meaning. */
module Processor {
  import opened Isa
  import opened Bits
  import opened BitTricks
  import opened Machine
  import opened FlatMemory
  import opened WordFormat

  const FLAG_RZ := 0x1
  const FLAG_RN := 0x2
  const FLAG_RC := 0x4
  const FLAG_RO := 0x8

  /** An `rvm_instr_t` that `rvm_decode` produced. */
  ghost predicate Decodes(instr: Decoded) {
    instr.raw < 0x10000 && instr == Decode(instr.raw)
  }

  lemma FieldsOf(instr: Decoded)
    requires Decodes(instr)
    ensures instr.opcode == OpcodeValue(OpcodeOf(instr.raw)) && instr.reg == RegOf(instr.raw)
    ensures instr.mode == ModeBit(ModeOf(instr.raw)) && instr.operand == OperandOf(instr.raw)
    ensures And(instr.operand, 0x7) == instr.raw % 8
  {
    hide And, Decode, OpcodeOf, RegOf, ModeOf, OperandOf;
    DecodeFields(instr.raw);
    MaskValues(instr.operand);
    OperandLow3(instr.raw);
  }

  lemma ClearMask(f: Word, k: nat, mask: Word)
    requires k <= 4 && mask == Pow2(k) - 1
    ensures And(f, 0xFFFF - mask) == f - f % (mask + 1)
  {
    hide And;
    Pow2Values();
    AndHighMask(f, 16, k);
  }

  lemma SetMask(f: Word, k: nat, flag: Word)
    requires k < 4 && flag == Pow2(k)
    ensures Or(f, flag) == if f / flag % 2 == 1 then f else f + flag
    ensures And(f, flag) != 0 <==> f / flag % 2 == 1
  {
    hide And, Or, Bit;
    BitIsQuotient(f, k);
    OrOneBit(f, k);
    AndOneBit(f, k);
  }

  /** A bit above the ones already set is still clear. */
  lemma FreeBit(q: nat, low: nat, flag: nat)
    requires flag > 0 && low < flag
    ensures (2 * flag * q + low) / flag % 2 == 0
  {
    assert 2 * flag * q + low == flag * (2 * q) + low;
    DivUnique(2 * flag * q + low, flag, 2 * q, low);
  }

  lemma DivisionByZeroOutcome(x: Word, f: Word)
    ensures Alu(DIV, x, 0, f) == Alu(MOD, x, 0, f) == DivisionByZero
  {
  }

  lemma ShiftLeftBy0(dst: Word, f: Word)
    ensures ShiftLeft(dst, 0, f) == Outcome(dst, f)
  {
  }

  class Cpu {
    const rv: array<Word>
    var rip: Word
    var rsp: Word
    var rsb: Word
    var flags: Word
    var halt: bool

    ghost predicate Valid(mem: Memory) {
      rv.Length == 8 && mem.Valid() && rv as object != mem.data
    }

    /** The state of the machine made of this CPU and a memory. */
    ghost function State(mem: Memory): Machine.State
      requires Valid(mem)
      reads this, rv, mem.data
    {
      Machine.State(rv[..], rip, rsp, rsb, flags, halt, mem.Contents())
    }

    /** The `memset` of `rvm_vm_create`. */
    constructor ()
      ensures rv.Length == 8 && fresh(rv)
      ensures rv[..] == [0, 0, 0, 0, 0, 0, 0, 0]
      ensures rip == rsp == rsb == flags == 0 && !halt
    {
      rv := new Word[8](_ => 0);
      rip, rsp, rsb, flags := 0, 0, 0, 0;
      halt := false;
    }

    // ---- the flag macros and rvm_cpu_fault ----

    method FlagSet(k: nat, flag: Word)
      requires k < 4 && flag == Pow2(k)
      modifies this`flags
      ensures flags == if old(flags) / flag % 2 == 1 then old(flags) else old(flags) + flag
    {
      SetMask(flags, k, flag);
      flags := Or(flags, flag);
    }

    method FlagClear(k: nat, mask: Word)
      requires k <= 4 && mask == Pow2(k) - 1
      modifies this`flags
      ensures flags == old(flags) - old(flags) % (mask + 1)
    {
      ClearMask(flags, k, mask);
      flags := And(flags, 0xFFFF - mask);
    }

    method Fault()
      modifies this`halt
      ensures halt
    {
      halt := true;
    }

    /** The immediate, or the register the operand selects. */
    method ReadSource(mem: Memory, instr: Decoded) returns (src: Word)
      requires Valid(mem) && Decodes(instr)
      ensures src == Source(State(mem), instr.raw)
    {
      FieldsOf(instr);
      src := if instr.mode == 0 then instr.operand else rv[And(instr.operand, 0x7)];
    }

    // ---- cpu_data.c, cpu_mem.c ----

    method ExecMov(mem: Memory, instr: Decoded)
      requires Valid(mem) && Decodes(instr)
      modifies rv
      ensures State(mem) == Machine.ExecMov(old(State(mem)), instr.raw)
    {
      hide And, Or, Xor, Shr, Decode, Decodes;
      FieldsOf(instr);
      if instr.mode == 0 {
        rv[instr.reg] := instr.operand;
      } else if instr.mode == 1 {
        rv[instr.reg] := rv[And(instr.operand, 0x7)];
      }
    }

    method ExecLoad(mem: Memory, instr: Decoded)
      requires Valid(mem) && Decodes(instr)
      modifies this`halt, rv
      ensures State(mem) == Machine.ExecLoad(old(State(mem)), instr.raw)
    {
      hide And, Or, Xor, Shr, Decode, Decodes;
      FieldsOf(instr);
      var addr := ReadSource(mem, instr);
      MaskValues(addr);
      if addr >= 0xFFFF {
        Fault();
        return;
      }
      if And(addr, 1) != 0 {
        Fault();
        return;
      }
      var value := mem.ReadUint16(addr);
      rv[instr.reg] := value;
    }

    method ExecStore(mem: Memory, instr: Decoded)
      requires Valid(mem) && Decodes(instr)
      modifies this`halt, mem.data
      ensures State(mem) == Machine.ExecStore(old(State(mem)), instr.raw)
    {
      hide And, Or, Xor, Shr, Decode, Decodes;
      FieldsOf(instr);
      var addr := ReadSource(mem, instr);
      MaskValues(addr);
      if addr >= 0xFFFF {
        Fault();
        return;
      }
      if And(addr, 1) != 0 {
        Fault();
        return;
      }
      mem.WriteUint16(addr, rv[instr.reg]);
    }

    // ---- cpu_alu.c ----

    /** The clear-then-set sequence that ends ADD, SUB, MUL, SHL and CMP. */
    method UpdateZNCO(z: bool, n: bool, c: bool, o: bool)
      modifies this`flags
      ensures flags == SetZNCO(old(flags), z, n, c, o)
    {
      hide Pow2;
      Pow2Values();
      FlagClear(4, 0xF);
      ghost var q: nat := flags / 16;
      assert flags == 16 * q;
      FreeBit(8 * q, 0, FLAG_RZ);
      if z { FlagSet(0, FLAG_RZ); }
      FreeBit(4 * q, B(z), FLAG_RN);
      if n { FlagSet(1, FLAG_RN); }
      FreeBit(2 * q, B(z) + 2 * B(n), FLAG_RC);
      if c { FlagSet(2, FLAG_RC); }
      FreeBit(q, B(z) + 2 * B(n) + 4 * B(c), FLAG_RO);
      if o { FlagSet(3, FLAG_RO); }
    }

    /** The same for SHR, which leaves RO alone. */
    method UpdateZNC(z: bool, n: bool, c: bool)
      modifies this`flags
      ensures flags == SetZNC(old(flags), z, n, c)
    {
      hide Pow2;
      Pow2Values();
      FlagClear(3, 0x7);
      ghost var q: nat := flags / 8;
      assert flags == 8 * q;
      FreeBit(4 * q, 0, FLAG_RZ);
      if z { FlagSet(0, FLAG_RZ); }
      FreeBit(2 * q, B(z), FLAG_RN);
      if n { FlagSet(1, FLAG_RN); }
      FreeBit(q, B(z) + 2 * B(n), FLAG_RC);
      if c { FlagSet(2, FLAG_RC); }
    }

    /** The same for DIV and MOD, which leave RC and RO alone. */
    method UpdateZN(z: bool, n: bool)
      modifies this`flags
      ensures flags == SetZN(old(flags), z, n)
    {
      hide Pow2;
      Pow2Values();
      FlagClear(2, 0x3);
      ghost var q: nat := flags / 4;
      assert flags == 4 * q;
      FreeBit(2 * q, 0, FLAG_RZ);
      if z { FlagSet(0, FLAG_RZ); }
      FreeBit(q, B(z), FLAG_RN);
      if n { FlagSet(1, FLAG_RN); }
    }

    method ExecAdd(mem: Memory, instr: Decoded)
      requires Valid(mem) && Decodes(instr) && OpcodeOf(instr.raw) == ADD
      modifies this`flags, rv
      ensures State(mem) == ExecAlu(old(State(mem)), instr.raw)
    {
      hide And, Xor, Decodes, Alu, SetZNCO, OpcodeOf, RegOf, Source;
      FieldsOf(instr);
      var dst := rv[instr.reg];
      var src := ReadSource(mem, instr);
      SumTricks(dst, src, flags);
      var result: nat := (dst as int) + src;
      var low: Word := result % 0x10000;
      var overflow := And(And(Xor(dst, low), Xor(src, low)), 0x8000) != 0;
      UpdateZNCO(And(result, 0xFFFF) == 0, And(low, 0x8000) != 0, result > 0xFFFF, overflow);
      rv[instr.reg] := low;
    }

    method ExecSub(mem: Memory, instr: Decoded)
      requires Valid(mem) && Decodes(instr) && OpcodeOf(instr.raw) == SUB
      modifies this`flags, rv
      ensures State(mem) == ExecAlu(old(State(mem)), instr.raw)
    {
      hide And, Xor, Decodes, Difference, SetZNCO, OpcodeOf, RegOf, Source;
      FieldsOf(instr);
      var dst := rv[instr.reg];
      var src := ReadSource(mem, instr);
      DifferenceTricks(dst, src, flags);
      var result: nat := ((dst as int) - src) % 0x1_0000_0000;
      var low: Word := result % 0x10000;
      var borrow := dst < src;
      var overflow := And(And(Xor(dst, src), Xor(dst, low)), 0x8000) != 0;
      UpdateZNCO(And(result, 0xFFFF) == 0, And(low, 0x8000) != 0, borrow, overflow);
      rv[instr.reg] := low;
    }

    method ExecMul(mem: Memory, instr: Decoded)
      requires Valid(mem) && Decodes(instr) && OpcodeOf(instr.raw) == MUL
      modifies this`flags, rv
      ensures State(mem) == ExecAlu(old(State(mem)), instr.raw)
    {
      hide And, Decodes, Truncated, SetZNCO, OpcodeOf, RegOf;
      FieldsOf(instr);
      var result: nat := 0;
      if instr.mode == 0 {
        result := (rv[instr.reg] as int) * instr.operand;
      } else if instr.mode == 1 {
        result := (rv[instr.reg] as int) * rv[And(instr.operand, 0x7)];
      }
      ProductTricks(result, flags);
      var low: Word := result % 0x10000;
      UpdateZNCO(And(result, 0xFFFF) == 0, And(low, 0x8000) != 0, result > 0xFFFF, result > 0xFFFF);
      rv[instr.reg] := low;
    }

    method ExecDiv(mem: Memory, instr: Decoded)
      requires Valid(mem) && Decodes(instr) && OpcodeOf(instr.raw) == DIV
      modifies this`flags, this`halt, rv
      ensures State(mem) == ExecAlu(old(State(mem)), instr.raw)
    {
      hide And, Decodes, Alu, SetZN, OpcodeOf, RegOf;
      FieldsOf(instr);
      var dst := rv[instr.reg];
      DivisionByZeroOutcome(dst, flags);
      var result: Word := 0;
      if instr.mode == 0 {
        if instr.operand == 0 {
          halt := true;
          return;
        }
        DivisionOutcome(dst, instr.operand, flags);
        result := dst / instr.operand;
      } else if instr.mode == 1 {
        var value := rv[And(instr.operand, 0x7)];
        if value == 0 {
          halt := true;
          return;
        }
        DivisionOutcome(dst, value, flags);
        result := dst / value;
      }
      Low16(result);
      SignBit(result);
      UpdateZN(And(result, 0xFFFF) == 0, And(result, 0x8000) != 0);
      rv[instr.reg] := result;
    }

    method ExecMod(mem: Memory, instr: Decoded)
      requires Valid(mem) && Decodes(instr) && OpcodeOf(instr.raw) == MOD
      modifies this`flags, this`halt, rv
      ensures State(mem) == ExecAlu(old(State(mem)), instr.raw)
    {
      hide And, Decodes, Alu, SetZN, OpcodeOf, RegOf;
      FieldsOf(instr);
      var dst := rv[instr.reg];
      DivisionByZeroOutcome(dst, flags);
      var result: Word := 0;
      if instr.mode == 0 {
        if instr.operand == 0 {
          halt := true;
          return;
        }
        DivisionOutcome(dst, instr.operand, flags);
        result := dst % instr.operand;
      } else if instr.mode == 1 {
        var value := rv[And(instr.operand, 0x7)];
        if value == 0 {
          halt := true;
          return;
        }
        DivisionOutcome(dst, value, flags);
        result := dst % value;
      }
      Low16(result);
      SignBit(result);
      UpdateZN(And(result, 0xFFFF) == 0, And(result, 0x8000) != 0);
      rv[instr.reg] := result;
    }

    method ExecShl(mem: Memory, instr: Decoded)
      requires Valid(mem) && Decodes(instr) && OpcodeOf(instr.raw) == SHL
      modifies this`flags, rv
      ensures State(mem) == ExecAlu(old(State(mem)), instr.raw)
    {
      hide And, Xor, Shl, Shr, Decodes, ShiftLeft, SetZNCO, OpcodeOf, RegOf, Source;
      FieldsOf(instr);
      var dst := rv[instr.reg];
      var src := ReadSource(mem, instr);
      MaskValues(src);
      var shift := And(src, 0xF);
      if shift == 0 {
        ShiftLeftBy0(dst, flags);
        return;
      }
      ShiftLeftTricks(dst, shift, flags);
      var result: Word := And(Shl(dst, shift), 0xFFFF);
      var bit := And(Shr(dst, 16 - shift), 1);
      var overflow := shift == 1 && And(Xor(dst, result), 0x8000) != 0;
      UpdateZNCO(And(result, 0xFFFF) == 0, And(result, 0x8000) != 0, bit != 0, overflow);
      rv[instr.reg] := result;
    }

    method ExecShr(mem: Memory, instr: Decoded)
      requires Valid(mem) && Decodes(instr) && OpcodeOf(instr.raw) == SHR
      modifies this`flags, rv
      ensures State(mem) == ExecAlu(old(State(mem)), instr.raw)
    {
      hide And, Shr, Decodes, ShiftRight, SetZNC, OpcodeOf, RegOf, Source;
      FieldsOf(instr);
      var dst := rv[instr.reg];
      var src := ReadSource(mem, instr);
      MaskValues(src);
      var shift := And(src, 0xF);
      ShiftRightTricks(dst, shift, flags);
      var result: Word := Shr(dst, shift);
      var carry := false;
      if shift != 0 {
        var bit := And(Shr(dst, shift - 1), 1);
        carry := bit != 0;
      }
      UpdateZNC(And(result, 0xFFFF) == 0, And(result, 0x8000) != 0, carry);
      rv[instr.reg] := result;
    }

    // ---- cpu_ctrlf.c ----

    method ExecCmp(mem: Memory, instr: Decoded)
      requires Valid(mem) && Decodes(instr) && OpcodeOf(instr.raw) == CMP
      modifies this`flags
      ensures State(mem) == ExecAlu(old(State(mem)), instr.raw)
    {
      hide And, Xor, Decodes, Difference, SetZNCO, OpcodeOf, RegOf, Source;
      FieldsOf(instr);
      var dst := rv[instr.reg];
      var src := ReadSource(mem, instr);
      DifferenceTricks(dst, src, flags);
      var result: nat := ((dst as int) - src) % 0x1_0000_0000;
      var low: Word := result % 0x10000;
      var borrow := dst < src;
      var overflow := And(And(Xor(dst, src), Xor(dst, low)), 0x8000) != 0;
      UpdateZNCO(And(result, 0xFFFF) == 0, And(low, 0x8000) != 0, borrow, overflow);
    }

    /** The address computation shared by the JMP and CALL handlers: the mode
        bit, the 11-bit offset and its sign extension, or a register. */
    method ReadTarget(mem: Memory, instr: Decoded) returns (addr: Word)
      requires Valid(mem) && Decodes(instr)
      ensures addr == BranchTarget(State(mem), instr.raw)
    {
      SignExtendMeaning(instr.raw);
      MaskValues(instr.raw);
      var mode := And(Shr(instr.raw, 11), 0x1);
      if mode == 0 {
        var raw := And(instr.raw, 0x7FF);
        var offset := SignExtend11(raw);
        addr := (rip + offset) % 0x10000;
      } else {
        var reg := And(instr.raw, 0x7);
        addr := rv[reg];
      }
    }

    method ExecJmp(mem: Memory, instr: Decoded)
      requires Valid(mem) && Decodes(instr)
      modifies this`halt, this`rip
      ensures State(mem) == Machine.ExecJmp(old(State(mem)), instr.raw)
    {
      var addr := ReadTarget(mem, instr);
      MaskValues(addr);
      if addr > MEMORY_SIZE - 2 {
        Fault();
        return;
      }
      if And(addr, 1) != 0 {
        Fault();
        return;
      }
      rip := addr;
    }

    method ExecJz(mem: Memory, instr: Decoded)
      requires Valid(mem) && Decodes(instr)
      modifies this`halt, this`rip
      ensures State(mem) == Machine.ExecJz(old(State(mem)), instr.raw)
    {
      SetMask(flags, 0, FLAG_RZ);
      if And(flags, FLAG_RZ) != 0 {
        ExecJmp(mem, instr);
      }
    }

    method ExecJnz(mem: Memory, instr: Decoded)
      requires Valid(mem) && Decodes(instr)
      modifies this`halt, this`rip
      ensures State(mem) == Machine.ExecJnz(old(State(mem)), instr.raw)
    {
      SetMask(flags, 0, FLAG_RZ);
      if And(flags, FLAG_RZ) == 0 {
        ExecJmp(mem, instr);
      }
    }

    method ExecCall(mem: Memory, instr: Decoded)
      requires Valid(mem) && Decodes(instr)
      modifies this`halt, this`rip, this`rsp, mem.data
      ensures State(mem) == Machine.ExecCall(old(State(mem)), instr.raw)
    {
      var addr := ReadTarget(mem, instr);
      MaskValues(addr);
      if addr > MEMORY_SIZE - 2 {
        Fault();
        return;
      }
      if And(addr, 1) != 0 {
        Fault();
        return;
      }
      if rsp < STACK_START + 2 {
        Fault();
        return;
      }
      rsp := rsp - 2;
      mem.WriteUint16(rsp, rip);
      rip := addr;
    }

    method ExecRet(mem: Memory, instr: Decoded)
      requires Valid(mem) && Decodes(instr)
      modifies this`halt, this`rip, this`rsp
      ensures State(mem) == Machine.ExecRet(old(State(mem)))
    {
      if rsp > STACK_END - 1 {
        halt := true;
        return;
      }
      var addr := mem.ReadUint16(rsp);
      MaskValues(addr);
      rsp := rsp + 2;
      if addr > MEMORY_SIZE - 2 {
        Fault();
        return;
      }
      if And(addr, 1) != 0 {
        Fault();
        return;
      }
      rip := addr;
    }

    // ---- cpu.c ----

    /** Dispatch, with the original's status: -1 for an opcode out of range. */
    method Execute(mem: Memory, instr: Decoded) returns (status: int)
      requires Valid(mem)
      requires instr.opcode < 16 ==> Decodes(instr)
      modifies this, rv, mem.data
      ensures status == if instr.opcode < 16 then 0 else -1
      ensures State(mem) == if instr.opcode < 16 then Machine.Execute(old(State(mem)), instr.raw)
                            else Machine.Fault(old(State(mem)))
    {
      if instr.opcode >= 16 {
        Fault();
        return -1;
      }
      FieldsOf(instr);
      match OpcodeAt(instr.opcode) {
        case MOV => ExecMov(mem, instr);
        case LOAD => ExecLoad(mem, instr);
        case STORE => ExecStore(mem, instr);
        case ADD => ExecAdd(mem, instr);
        case SUB => ExecSub(mem, instr);
        case MUL => ExecMul(mem, instr);
        case DIV => ExecDiv(mem, instr);
        case MOD => ExecMod(mem, instr);
        case SHL => ExecShl(mem, instr);
        case SHR => ExecShr(mem, instr);
        case CMP => ExecCmp(mem, instr);
        case JMP => ExecJmp(mem, instr);
        case JZ => ExecJz(mem, instr);
        case JNZ => ExecJnz(mem, instr);
        case CALL => ExecCall(mem, instr);
        case RET => ExecRet(mem, instr);
      }
      status := 0;
    }

    /** One fetch-decode-execute cycle fails exactly when the fetch is out of
        bounds. */
    method Cycle(mem: Memory) returns (status: int)
      requires Valid(mem)
      modifies this, rv, mem.data
      ensures State(mem) == Machine.Cycle(old(State(mem)))
      ensures status == if !old(halt) && old(rip) > PROGRAM_END - 2 then -1 else 0
    {
      if halt {
        return 0;
      }
      if rip > PROGRAM_END - 2 {
        return -1;
      }
      var word := mem.ReadUint16(rip);
      var instr := Decode(word);
      FieldsOf(instr);
      rip := rip + 2;
      status := Execute(mem, instr);
    }
  }
}
