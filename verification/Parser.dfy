/** The parser object (rocketasm/parser.c): it pulls tokens from a lexer one at
    a time and pushes labels and instructions into a program, and is proved to
    do what module `Grammar` says of the whole token sequence. */
module Parsing {
  import opened Isa
  import opened Lexing
  import opened Grammar
  import opened ProgramStore

  /** The tokens from a current token on, before the end of the text. */
  function Stream(token: Token, rest: string): seq<Token> {
    if token == EOF then [] else [token] + Tokens(rest)
  }

  lemma StreamOfLex(t: string)
    ensures Stream(Lex(t).token, t[Lex(t).end..]) == Tokens(t)
  {
  }

  /** Counting tokens past a first operand and a comma. */
  lemma SecondOperand(ts: seq<Token>, after: seq<Token>)
    requires ParseOperand(ts).Some? && after == ts[ParseOperand(ts).value.1..]
    requires after != [] && after[0] == COMMA && ParseOperand(after[1..]).Some?
    ensures var n, m := ParseOperand(ts).value.1, ParseOperand(after[1..]).value.1;
            after[1..] == ts[n + 1..] && after[1..][m..] == ts[n + 1 + m..]
  {
  }

  class Parser {
    var token: Token

    constructor ()
      ensures token == INVALID
    {
      token := INVALID;
    }

    ghost function Current(lexer: Lexer): seq<Token>
      requires lexer.Valid()
      reads this, lexer
    {
      Stream(token, lexer.src[lexer.pos..])
    }

    /** `rsm_parser_advance`. */
    method Advance(lexer: Lexer)
      requires lexer.Valid()
      modifies this, lexer
      ensures lexer.Valid()
      ensures Current(lexer) == Tokens(lexer.src[old(lexer.pos)..])
    {
      hide Lex, Tokens;
      ghost var rest := lexer.src[lexer.pos..];
      token := lexer.Tokenize();
      StreamOfLex(rest);
      assert rest[Lex(rest).end..] == lexer.src[lexer.pos..];
    }

    /** Dropping the current token. */
    method Next(lexer: Lexer)
      requires lexer.Valid() && token != EOF
      modifies this, lexer
      ensures lexer.Valid() && Current(lexer) == old(Current(lexer))[1..]
    {
      hide Tokens;
      Advance(lexer);
    }

    /** `rsm_parser_parse_operand`.  It leaves the last token of the operand
        current, or returns an invalid operand. */
    method ReadOperand(lexer: Lexer) returns (operand: Operand)
      requires lexer.Valid()
      modifies this, lexer
      ensures lexer.Valid()
      ensures match ParseOperand(old(Current(lexer)))
              case None => operand == InvalidOperand
              case Some((o, n)) =>
                operand == o && token != EOF && Current(lexer) == old(Current(lexer))[n - 1..]
    {
      hide Tokens;
      ghost var ts := Current(lexer);
      if token == LBRACKET {
        Next(lexer);
        var inside := token;
        if !inside.NUMBER? && !inside.REG? && !inside.IDENT? {
          return InvalidOperand;
        }
        Next(lexer);
        if token != RBRACKET {
          return InvalidOperand;
        }
        operand := if inside.NUMBER? then Mem(MemImm(inside.number))
                   else if inside.REG? then Mem(MemReg(inside.reg))
                   else Mem(MemLabel(inside.name));
        assert Current(lexer) == ts[2..];
        return;
      }
      if token.NUMBER? { return Imm(token.number); }
      if token.REG? { return RegOperand(token.reg); }
      if token.IDENT? { return LabelOperand(token.name); }
      operand := InvalidOperand;
    }

    /** An operand and the step past it. */
    method TakeOperand(lexer: Lexer) returns (operand: Operand)
      requires lexer.Valid()
      modifies this, lexer
      ensures lexer.Valid()
      ensures match ParseOperand(old(Current(lexer)))
              case None => operand == InvalidOperand
              case Some((o, n)) =>
                operand == o && o != InvalidOperand && Current(lexer) == old(Current(lexer))[n..]
    {
      hide Tokens;
      ghost var ts := Current(lexer);
      operand := ReadOperand(lexer);
      if operand != InvalidOperand {
        Next(lexer);
        assert Current(lexer) == ts[ParseOperand(ts).value.1..];
      }
    }

    /** The operands of an instruction, leaving the token after them current. */
    method ReadOperands(op: Opcode, lexer: Lexer) returns (status: int, opr1: Operand, opr2: Operand)
      requires lexer.Valid()
      modifies this, lexer
      ensures lexer.Valid()
      ensures match ParseOperands(op, old(Current(lexer)))
              case None => status == -1
              case Some(r) =>
                && status == 0 && opr1 == r.opr1 && opr2 == r.opr2
                && Current(lexer) == old(Current(lexer))[r.used..]
    {
      hide Tokens, ParseOperand;
      ghost var ts := Current(lexer);
      status, opr1, opr2 := 0, NoOperand, NoOperand;
      if op != RET && token != NEWLINE && token != EOF {
        opr1 := TakeOperand(lexer);
        if opr1 == InvalidOperand {
          return -1, opr1, opr2;
        }
        if token == COMMA {
          ghost var after := Current(lexer);
          Next(lexer);
          opr2 := TakeOperand(lexer);
          if opr2 == InvalidOperand {
            return -1, opr1, opr2;
          }
          SecondOperand(ts, after);
        }
      }
    }

    /** `rsm_parser_parse_opcode`, with an opcode token current. */
    method ReadInstr(lexer: Lexer, program: ProgramBuilder) returns (status: int)
      requires lexer.Valid() && program.Valid() && token.OPCODE?
      requires this !in program.Repr() && lexer !in program.Repr()
      modifies this, lexer, program.Repr()
      ensures lexer.Valid() && program.Valid() && fresh(program.Repr() - old(program.Repr()))
      ensures match ParseInstr(old(token).opcode, old(Current(lexer))[1..])
              case None => status == -1 && program.Contents() == old(program.Contents())
              case Some((i, n)) =>
                && status == 0
                && program.Contents() == AddInstr(old(program.Contents()), i)
                && Current(lexer) == old(Current(lexer))[1..][n..]
    {
      hide Tokens, ParseOperands, Accepts;
      var op := token.opcode;
      Next(lexer);
      var opr1, opr2;
      status, opr1, opr2 := ReadOperands(op, lexer);
      if status == -1 {
        return;
      }
      if token != NEWLINE && token != EOF {
        return -1;
      }
      var instr := Instr(op, opr1, opr2);
      if !Accepts(instr) {
        return -1;
      }
      program.PushInstr(instr);
    }

    /** A label declaration, with its name current. */
    method ReadLabel(lexer: Lexer, program: ProgramBuilder) returns (status: int)
      requires lexer.Valid() && program.Valid() && token.IDENT?
      requires this !in program.Repr() && lexer !in program.Repr()
      modifies this, lexer, program.Repr()
      ensures lexer.Valid() && program.Valid() && fresh(program.Repr() - old(program.Repr()))
      ensures var ts, p := old(Current(lexer)), old(program.Contents());
              if |ts| < 2 || ts[1] != COLON || |p.instrs| > 0xFFFF then
                status == -1 && program.Contents() == p
              else
                && status == 0 && Current(lexer) == ts[2..]
                && program.Contents() == AddLabel(p, old(token).name)
    {
      hide Tokens;
      var name := token.name;
      Next(lexer);
      if token != COLON {
        return -1;
      }
      if program.instrCount > 0xFFFF {
        return -1;
      }
      program.PushLabel(Label(name, program.instrCount % 0x10000));
      Next(lexer);
      status := 0;
    }

    /** `rsm_parser_parse`.  It ends on every input. */
    method Parse(lexer: Lexer, program: ProgramBuilder) returns (status: int)
      requires lexer.Valid() && program.Valid()
      requires this !in program.Repr() && lexer !in program.Repr()
      modifies this, lexer, program.Repr()
      ensures program.Valid()
      ensures var r := ParseFrom(Tokens(lexer.src[old(lexer.pos)..]), old(program.Contents()));
              program.Contents() == r.program && status == if r.ok then 0 else -1
    {
      hide Tokens, ParseInstr;
      Advance(lexer);
      ghost var start := Current(lexer);
      while token != EOF
        invariant lexer.Valid() && program.Valid() && fresh(program.Repr() - old(program.Repr()))
        invariant this !in program.Repr() && lexer !in program.Repr()
        invariant ParseFrom(start, old(program.Contents())) == ParseFrom(Current(lexer), program.Contents())
        decreases |Current(lexer)|
      {
        if token == INVALID {
          return -1;
        }
        if token.IDENT? {
          status := ReadLabel(lexer, program);
          if status == -1 {
            return;
          }
        } else if token.OPCODE? {
          ghost var ts, op := Current(lexer), token.opcode;
          status := ReadInstr(lexer, program);
          if status == -1 {
            return;
          }
          assert ts[1..][ParseInstr(op, ts[1..]).value.1..] == Current(lexer);
          assert ts[1 + ParseInstr(op, ts[1..]).value.1..] == Current(lexer);
        } else if token == NEWLINE {
          Next(lexer);
        } else {
          return -1;
        }
      }
      status := 0;
    }
  }
}
