/** The accepted forms of every opcode, written out as tokens. */
module GrammarReference {
  import opened Isa
  import opened Lexing
  import opened ProgramStore
  import opened Grammar

  // ---- which operands each opcode takes ----

  /** The tokens of an instruction parse to just that instruction. */
  ghost predicate Reads(i: Instr) {
    ParseFrom([OPCODE(i.opcode)] + OperandsTokens(i), EMPTY) == ParseResult(true, Program([i], []))
  }

  /** RET takes none, LOAD reg, [mem], STORE [mem], reg, MOV, arithmetic and CMP
      reg, reg or reg, imm. */
  lemma DataShapes(i: Instr)
    ensures i.opcode == RET ==> (Reads(i) <==> i.opr1 == NoOperand && i.opr2 == NoOperand)
    ensures i.opcode == LOAD ==> (Reads(i) <==> i.opr1.RegOperand? && i.opr2.Mem? && i.opr2.mem != MemNone)
    ensures i.opcode == STORE ==> (Reads(i) <==> i.opr1.Mem? && i.opr1.mem != MemNone && i.opr2.RegOperand?)
    ensures i.opcode in {MOV, ADD, SUB, MUL, DIV, MOD, SHL, SHR, CMP} ==>
              (Reads(i) <==> i.opr1.RegOperand? && (i.opr2.RegOperand? || i.opr2.Imm?))
  {
    hide ParseFrom, OperandsTokens;
    ReadsExactly(i);
  }

  /** Branches take a label, a register or a number, and then nothing or any
      second operand at all. */
  lemma BranchShapes(i: Instr)
    requires i.opcode in {JMP, JZ, JNZ, CALL}
    ensures Reads(i) <==>
            (&& (i.opr1.LabelOperand? || i.opr1.RegOperand? || i.opr1.Imm?)
             && (|| i.opr2 == NoOperand || i.opr2.LabelOperand? || i.opr2.RegOperand? || i.opr2.Imm?
                 || (i.opr2.Mem? && i.opr2.mem != MemNone)))
  {
    hide ParseFrom, OperandsTokens;
    ReadsExactly(i);
  }

  lemma ReadsExactly(i: Instr)
    ensures Reads(i) <==> WritableInstr(i)
  {
    hide OperandsTokens, WritableInstr, ParseInstr;
    var ts := [OPCODE(i.opcode)] + OperandsTokens(i);
    assert ts[1..] == OperandsTokens(i) && OperandsTokens(i) + [] == OperandsTokens(i);
    if WritableInstr(i) {
      ParseItem(Execute(i), [], EMPTY);
      assert ItemTokens(Execute(i)) + [] == ts;
    }
    if Reads(i) {
      var (first, n) := ParseInstr(i.opcode, ts[1..]).value;
      ParseInstrSound(i.opcode, ts[1..]);
      assert AddInstr(EMPTY, first) == Program([first], []);
      FirstKept(ts[1 + n..], Program([first], []));
      assert first == [i][0];
    }
  }

  /** Parsing on leaves the first instruction first. */
  lemma {:induction false} FirstKept(ts: seq<Token>, p: Program)
    requires p.instrs != []
    ensures ParseFrom(ts, p).program.instrs != [] && ParseFrom(ts, p).program.instrs[0] == p.instrs[0]
    decreases |ts|
  {
    hide ParseFrom, ItemTokens;
    var item := FirstItem(ts, p);
    if item.Some? {
      FirstKept(ts[|ItemTokens(item.value)|..], Add(item.value, p));
    }
  }

  // ---- lines, token by token ----

  /** The tokens of operands in every position. */
  lemma OperandForms(op: Opcode, r: Reg, q: Reg, n: Int32, name: string)
    ensures OperandsTokens(Instr(op, NoOperand, NoOperand)) == []
    ensures OperandsTokens(Instr(op, RegOperand(r), Imm(n))) == [REG(r), COMMA, NUMBER(n)]
    ensures OperandsTokens(Instr(op, RegOperand(r), RegOperand(q))) == [REG(r), COMMA, REG(q)]
    ensures OperandsTokens(Instr(op, RegOperand(r), Mem(MemImm(n)))) == [REG(r), COMMA, LBRACKET, NUMBER(n), RBRACKET]
    ensures OperandsTokens(Instr(op, RegOperand(r), Mem(MemReg(q)))) == [REG(r), COMMA, LBRACKET, REG(q), RBRACKET]
    ensures OperandsTokens(Instr(op, RegOperand(r), Mem(MemLabel(name))))
         == [REG(r), COMMA, LBRACKET, IDENT(name), RBRACKET]
    ensures OperandsTokens(Instr(op, Mem(MemImm(n)), RegOperand(r))) == [LBRACKET, NUMBER(n), RBRACKET, COMMA, REG(r)]
    ensures OperandsTokens(Instr(op, Mem(MemReg(q)), RegOperand(r))) == [LBRACKET, REG(q), RBRACKET, COMMA, REG(r)]
    ensures OperandsTokens(Instr(op, Mem(MemLabel(name)), RegOperand(r)))
         == [LBRACKET, IDENT(name), RBRACKET, COMMA, REG(r)]
    ensures OperandsTokens(Instr(op, LabelOperand(name), NoOperand)) == [IDENT(name)]
    ensures OperandsTokens(Instr(op, RegOperand(r), NoOperand)) == [REG(r)]
    ensures OperandsTokens(Instr(op, Imm(n), NoOperand)) == [NUMBER(n)]
    ensures OperandsTokens(Instr(op, LabelOperand(name), RegOperand(r))) == [IDENT(name), COMMA, REG(r)]
  {
  }

  /** An instruction that reads at all does so before any line end, after any
      program, and is appended. */
  lemma InstrLine(i: Instr, more: seq<Token>, p: Program)
    requires Reads(i) && (more == [] || more[0] == NEWLINE)
    ensures ParseFrom([OPCODE(i.opcode)] + OperandsTokens(i) + more, p)
         == ParseFrom(more, Program(p.instrs + [i], p.labels))
  {
    hide ParseFrom, OperandsTokens, WritableInstr;
    ReadsExactly(i);
    ParseItem(Execute(i), more, p);
  }

  /** The other lines, and what stops the parser: a name without a colon, a label
      past 65535 instructions, and any token that starts no line. */
  lemma OtherLines(name: string, r: Reg, n: Int32, more: seq<Token>, p: Program)
    ensures ParseFrom([], p) == ParseResult(true, p)
    ensures ParseFrom([NEWLINE] + more, p) == ParseFrom(more, p)
    ensures |p.instrs| <= 65535 ==>
              ParseFrom([IDENT(name), COLON] + more, p)
                == ParseFrom(more, Program(p.instrs, p.labels + [Label(name, |p.instrs|)]))
    ensures |p.instrs| > 65535 ==> ParseFrom([IDENT(name), COLON] + more, p) == ParseResult(false, p)
    ensures more == [] || more[0] != COLON ==> ParseFrom([IDENT(name)] + more, p) == ParseResult(false, p)
    ensures forall t :: t in [INVALID, REG(r), NUMBER(n), COMMA, COLON, LBRACKET, RBRACKET, EOF] ==>
              ParseFrom([t] + more, p) == ParseResult(false, p)
  {
    hide ParseInstr;
    assert ([NEWLINE] + more)[1..] == more;
    assert ([IDENT(name), COLON] + more)[2..] == more;
  }
}
