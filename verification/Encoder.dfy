/** From symbolic instructions to words and bytes (rocketasm/encoder.c,
    rocketasm/emitter.c). */
module Encoder {
  import opened Isa
  import opened Bits
  import opened WordFormat
  import opened ProgramStore
  import opened FlatMemory
  import opened Machine

  /** What a call to the encoder does: it returns an int (-1 is its error
      sentinel), or an assert of a format C helper stops the process. */
  datatype EncodeResult = Returns(value: int) | Aborts

  /** `rsm_resolve_label`: the byte displacement from the next instruction. */
  function ResolveLabel(p: Program, name: string, index: nat): int {
    var address := FindLabel(p.labels, name);
    if address < 0 then -1 else (address - index - 1) * 2
  }

  /** `rvm_jmp_imm` and its siblings on `(int16_t)simm`, with their assert. */
  function EncodeJump(op: Opcode, simm: int): EncodeResult {
    var narrow := Int16(simm);
    if -1024 <= narrow <= 1023 then Returns(JumpImm(op, narrow)) else Aborts
  }

  function EncodeInstr(p: Program, instr: Instr, index: nat): EncodeResult {
    var a, b := instr.opr1, instr.opr2;
    match instr.opcode
    case MOV =>
      if a.RegOperand? && b.Imm? then Returns(Encode(MOV, a.reg, ImmOrAddr, b.imm % 0x100))
      else if a.RegOperand? && b.RegOperand? then Returns(Encode(MOV, a.reg, Register, b.reg))
      else Returns(-1)
    case LOAD =>
      if a.RegOperand? && b.Mem? then EncodeMemory(p, LOAD, a.reg, b.mem) else Returns(-1)
    case STORE =>
      if a.Mem? && b.RegOperand? then EncodeMemory(p, STORE, b.reg, a.mem) else Returns(-1)
    case JMP => EncodeBranch(p, JMP, a, index)
    case JZ => EncodeBranch(p, JZ, a, index)
    case JNZ => EncodeBranch(p, JNZ, a, index)
    case CALL => EncodeBranch(p, CALL, a, index)
    case RET => Returns(RetWord())
    case op =>
      if !a.RegOperand? then Returns(-1)
      else if b.Imm? then Returns(Encode(op, a.reg, ImmOrAddr, b.imm % 0x100))
      else if b.RegOperand? then Returns(Encode(op, a.reg, Register, b.reg))
      else Returns(-1)
  }

  /** A `[label]` operand uses the label's instruction index cut to 8 bits. */
  function EncodeMemory(p: Program, op: Opcode, reg: Reg, mem: MemRef): EncodeResult {
    match mem
    case MemImm(imm) => Returns(Encode(op, reg, ImmOrAddr, imm % 0x100))
    case MemReg(r) => Returns(Encode(op, reg, Register, r))
    case MemLabel(name) =>
      var address := FindLabel(p.labels, name);
      if address < 0 then Returns(-1) else Returns(Encode(op, reg, ImmOrAddr, address % 0x100))
    case MemNone => Returns(-1)
  }

  function EncodeBranch(p: Program, op: Opcode, a: Operand, index: nat): EncodeResult {
    match a
    case LabelOperand(name) =>
      var simm := ResolveLabel(p, name, index);
      if simm == -1 then Returns(-1) else EncodeJump(op, simm)
    case RegOperand(reg) => Returns(JumpReg(op, reg))
    case _ => Returns(-1)
  }

  /** The sentinel is unambiguous: any other result is a word. */
  lemma EncodeInstrRange(p: Program, instr: Instr, index: nat)
    ensures var r := EncodeInstr(p, instr, index);
            r.Returns? ==> r.value == -1 || 0 <= r.value < 0x10000
  {
    hide *;
    var r := EncodeInstr(p, instr, index);
    if r.Returns? && r.value != -1 {
      EncodedOpcode(p, instr, index, r.value);
    }
  }

  /** An emitted word carries the instruction's opcode. */
  lemma EncodedOpcode(p: Program, instr: Instr, index: nat, w: int)
    requires EncodeInstr(p, instr, index) == Returns(w) && w != -1
    ensures 0 <= w < 0x10000 && OpcodeOf(w) == instr.opcode
  {
    hide Encode, JumpImm, JumpReg, RetWord, OpcodeOf, OpcodeAt;
    var op, a, b := instr.opcode, instr.opr1, instr.opr2;
    if op == RET {
      RetLayout();
    } else if IsBranch(op) {
      if a.LabelOperand? {
        JumpImmLayout(op, Int16(ResolveLabel(p, a.name, index)));
      } else {
        JumpRegLayout(op, a.reg);
      }
    } else if op == LOAD || op == STORE {
      var reg := if op == LOAD then a.reg else b.reg;
      var mem := if op == LOAD then b.mem else a.mem;
      match mem {
        case MemImm(imm) => EncodeLayout(op, reg, ImmOrAddr, imm % 0x100);
        case MemReg(r) => EncodeLayout(op, reg, Register, r);
        case MemLabel(name) => EncodeLayout(op, reg, ImmOrAddr, FindLabel(p.labels, name) % 0x100);
      }
    } else {
      if b.Imm? {
        EncodeLayout(op, a.reg, ImmOrAddr, b.imm % 0x100);
      } else {
        EncodeLayout(op, a.reg, Register, b.reg);
      }
    }
  }

  // ---- emission ----

  /** The first |words| instructions encode to these words. */
  ghost predicate EncodesTo(p: Program, words: seq<Word>) {
    && |words| <= |p.instrs|
    && forall i :: 0 <= i < |words| ==> EncodeInstr(p, p.instrs[i], i) == Returns(words[i])
  }

  /** The whole program encodes to these words. */
  ghost predicate Assembles(p: Program, words: seq<Word>) {
    |words| == |p.instrs| && EncodesTo(p, words)
  }

  /** The bytes of the words, little-endian. */
  function Image(words: seq<Word>): (image: seq<Byte>)
    ensures |image| == 2 * |words|
  {
    if words == [] then []
    else
      var w := words[|words| - 1];
      Image(words[..|words| - 1]) + [w % 0x100, w / 0x100]
  }

  lemma {:induction false} ImageAt(words: seq<Word>, i: nat)
    requires i < |words|
    ensures Image(words)[2 * i] == words[i] % 0x100 && Image(words)[2 * i + 1] == words[i] / 0x100
  {
    if i < |words| - 1 {
      ImageAt(words[..|words| - 1], i);
    }
  }

  datatype EmitStatus = Done | Refused | Aborted

  /** Emission ends like this after writing these words. */
  ghost predicate EndsAfter(p: Program, words: seq<Word>, status: EmitStatus) {
    && EncodesTo(p, words)
    && (status == Done <==> |words| == |p.instrs|)
    && (status == Refused ==> EncodeInstr(p, p.instrs[|words|], |words|) == Returns(-1))
    && (status == Aborted ==> EncodeInstr(p, p.instrs[|words|], |words|) == Aborts)
  }

  /** `rsm_emit_binary`, with the bytes written so far as the file.  It stops at
      the first instruction that does not encode. */
  method EmitBinary(p: Program) returns (status: EmitStatus, out: seq<Byte>)
    ensures exists words :: EndsAfter(p, words, status) && out == Image(words)
  {
    hide EncodeInstr;
    out := [];
    ghost var words: seq<Word> := [];
    for i := 0 to |p.instrs|
      invariant |words| == i && EncodesTo(p, words) && out == Image(words)
    {
      EncodeInstrRange(p, p.instrs[i], i);
      var encoded := EncodeInstr(p, p.instrs[i], i);
      if encoded.Aborts? {
        assert EndsAfter(p, words, Aborted);
        return Aborted, out;
      }
      if encoded.value == -1 {
        assert EndsAfter(p, words, Refused);
        return Refused, out;
      }
      var word: Word := encoded.value;
      SplitWord(word);
      out := out + [And(word, 0xFF), And(Shr(word, 8), 0xFF)];
      assert (words + [word])[..i] == words;
      words := words + [word];
    }
    assert EndsAfter(p, words, Done);
    status := Done;
  }

  /** How emission ends, and the file it leaves, depend on the program alone. */
  lemma EmissionUnique(p: Program, v: seq<Word>, w: seq<Word>, s: EmitStatus, t: EmitStatus)
    requires EndsAfter(p, v, s) && EndsAfter(p, w, t)
    ensures v == w && s == t
  {
    hide EncodeInstr;
    assert forall k :: 0 <= k < |v| && k < |w| ==> Returns(v[k]) == Returns(w[k]);
  }

  /** Emit, load and fetch compose to the identity on words. */
  lemma FetchLoaded(s: State, words: seq<Word>, i: nat)
    requires 2 * |words| <= MEMORY_SIZE && i < |words|
    ensures ReadWord(Load(s, Image(words)).mem, 2 * i) == words[i]
  {
    ImageAt(words, i);
  }

  /** Loading changes nothing past the image. */
  lemma LoadedRest(s: State, words: seq<Word>, a: Word)
    requires 2 * |words| <= a
    ensures Load(s, Image(words)).mem[a] == s.mem[a]
  {
  }

  // ---- label resolution before emission ----

  /** `rsm_resolve_labels`: 0 exactly when every jump label operand, first or
      second, is declared somewhere.  Labels in brackets are not looked at. */
  method ResolveLabels(p: Program) returns (status: int)
    ensures status == 0 || status == -1
    ensures status == 0 <==>
      forall i, name ::
        (0 <= i < |p.instrs| && (p.instrs[i].opr1 == LabelOperand(name) || p.instrs[i].opr2 == LabelOperand(name)))
        ==> exists k :: 0 <= k < |p.labels| && p.labels[k].name == name
  {
    for i := 0 to |p.instrs|
      invariant forall j, name ::
        (0 <= j < i && (p.instrs[j].opr1 == LabelOperand(name) || p.instrs[j].opr2 == LabelOperand(name)))
        ==> exists k :: 0 <= k < |p.labels| && p.labels[k].name == name
    {
      var instr := p.instrs[i];
      if instr.opr1.LabelOperand? {
        var address := FindLabel(p.labels, instr.opr1.name);
        FindLabelFails(p.labels, instr.opr1.name);
        if address < 0 {
          return -1;
        }
      }
      if instr.opr2.LabelOperand? {
        var address := FindLabel(p.labels, instr.opr2.name);
        FindLabelFails(p.labels, instr.opr2.name);
        if address < 0 {
          return -1;
        }
      }
    }
    status := 0;
  }
}
