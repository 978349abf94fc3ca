/** The assembly grammar on tokens: which instructions are accepted, and what a
    sequence of tokens means as a program (rocketasm/parser.c). */
module Grammar {
  import opened Isa
  import opened Options
  import opened Lexing
  import opened ProgramStore

  // ---- operand shapes ----

  /** The checks after the operands have been read. */
  predicate Accepts(i: Instr) {
    match i.opcode
    case RET => i.opr1 == NoOperand && i.opr2 == NoOperand
    case LOAD => i.opr1.RegOperand? && i.opr2.Mem?
    case STORE => i.opr1.Mem? && i.opr2.RegOperand?
    case MOV => i.opr1.RegOperand? && (i.opr2.RegOperand? || i.opr2.Imm?)
    case JMP => AcceptsTarget(i.opr1)
    case JZ => AcceptsTarget(i.opr1)
    case JNZ => AcceptsTarget(i.opr1)
    case CALL => AcceptsTarget(i.opr1)
    case _ => i.opr1.RegOperand? && (i.opr2.RegOperand? || i.opr2.Imm?)
  }

  /** An immediate target is accepted here and refused by the encoder. */
  predicate AcceptsTarget(a: Operand) { a.LabelOperand? || a.RegOperand? || a.Imm? }

  // ---- parsing ----

  /** An operand at the start of some tokens, and how many it takes. */
  function ParseOperand(ts: seq<Token>): (r: Option<(Operand, nat)>)
    ensures r.Some? ==> 0 < r.value.1 <= |ts| && r.value.0 != NoOperand && r.value.0 != InvalidOperand
  {
    if ts == [] then None
    else match ts[0]
      case LBRACKET =>
        if |ts| < 3 || ts[2] != RBRACKET then None
        else (match ts[1]
              case NUMBER(n) => Some((Mem(MemImm(n)), 3))
              case REG(r) => Some((Mem(MemReg(r)), 3))
              case IDENT(name) => Some((Mem(MemLabel(name)), 3))
              case _ => None)
      case NUMBER(n) => Some((Imm(n), 1))
      case REG(r) => Some((RegOperand(r), 1))
      case IDENT(name) => Some((LabelOperand(name), 1))
      case _ => None
  }

  /** The end of a line or of the text. */
  predicate AtEnd(ts: seq<Token>) { ts == [] || ts[0] == NEWLINE }

  datatype Operands = Operands(opr1: Operand, opr2: Operand, used: nat)

  /** The operands after an opcode; RET does not look for any. */
  function ParseOperands(op: Opcode, ts: seq<Token>): (r: Option<Operands>)
    ensures r.Some? ==> r.value.used <= |ts|
  {
    if op == RET || AtEnd(ts) then Some(Operands(NoOperand, NoOperand, 0))
    else
      match ParseOperand(ts)
      case None => None
      case Some((a, n)) =>
        if n < |ts| && ts[n] == COMMA then
          match ParseOperand(ts[n + 1..])
          case None => None
          case Some((b, m)) => Some(Operands(a, b, n + 1 + m))
        else Some(Operands(a, NoOperand, n))
  }

  /** An instruction from the tokens after its opcode, and how many it takes. */
  function ParseInstr(op: Opcode, ts: seq<Token>): (r: Option<(Instr, nat)>)
    ensures r.Some? ==> r.value.1 <= |ts|
  {
    match ParseOperands(op, ts)
    case None => None
    case Some(Operands(a, b, n)) =>
      if AtEnd(ts[n..]) && Accepts(Instr(op, a, b)) then Some((Instr(op, a, b), n)) else None
  }

  /** Success or failure, with the program as far as it got. */
  datatype ParseResult = ParseResult(ok: bool, program: Program)

  function AddInstr(p: Program, i: Instr): Program { p.(instrs := p.instrs + [i]) }

  function AddLabel(p: Program, name: string): Program
    requires |p.instrs| <= 0xFFFF
  {
    p.(labels := p.labels + [Label(name, |p.instrs|)])
  }

  /** A whole text, given its tokens and the program so far. */
  function ParseFrom(ts: seq<Token>, p: Program): ParseResult
    decreases |ts|
  {
    if ts == [] then ParseResult(true, p)
    else match ts[0]
      case NEWLINE => ParseFrom(ts[1..], p)
      case IDENT(name) =>
        if |ts| < 2 || ts[1] != COLON || |p.instrs| > 0xFFFF then ParseResult(false, p)
        else ParseFrom(ts[2..], AddLabel(p, name))
      case OPCODE(op) =>
        (match ParseInstr(op, ts[1..])
         case None => ParseResult(false, p)
         case Some((i, n)) => ParseFrom(ts[1 + n..], AddInstr(p, i)))
      case _ => ParseResult(false, p)
  }

  /** The program of a source text. */
  function Parse(text: string): ParseResult { ParseFrom(Tokens(text), EMPTY) }

  // ---- the grammar as a set of token sequences ----

  /** What a text is made of: declarations, instructions and line ends. */
  datatype Item = Declare(name: string) | Execute(instr: Instr) | LineEnd

  /** An operand that has a written form. */
  predicate Writable(o: Operand) { o != InvalidOperand && o != Mem(MemNone) }

  predicate WritableInstr(i: Instr) { Accepts(i) && Writable(i.opr1) && Writable(i.opr2) }

  function OperandTokens(o: Operand): seq<Token> {
    match o
    case Imm(n) => [NUMBER(n)]
    case RegOperand(r) => [REG(r)]
    case LabelOperand(name) => [IDENT(name)]
    case Mem(MemImm(n)) => [LBRACKET, NUMBER(n), RBRACKET]
    case Mem(MemReg(r)) => [LBRACKET, REG(r), RBRACKET]
    case Mem(MemLabel(name)) => [LBRACKET, IDENT(name), RBRACKET]
    case _ => []
  }

  function OperandsTokens(i: Instr): seq<Token> {
    OperandTokens(i.opr1) + if i.opr2 == NoOperand then [] else [COMMA] + OperandTokens(i.opr2)
  }

  function ItemTokens(item: Item): seq<Token> {
    match item
    case Declare(name) => [IDENT(name), COLON]
    case Execute(i) => [OPCODE(i.opcode)] + OperandsTokens(i)
    case LineEnd => [NEWLINE]
  }

  function Flatten(items: seq<Item>): seq<Token> {
    if items == [] then [] else ItemTokens(items[0]) + Flatten(items[1..])
  }

  /** Instructions are writable and end their line. */
  ghost predicate WellFormed(items: seq<Item>) {
    forall k :: 0 <= k < |items| && items[k].Execute? ==>
      WritableInstr(items[k].instr) && (k + 1 == |items| || items[k + 1] == LineEnd)
  }

  /** A declaration needs an address of 16 bits. */
  predicate Fits(item: Item, p: Program) { item.Declare? ==> |p.instrs| <= 0xFFFF }

  function Add(item: Item, p: Program): Program
    requires Fits(item, p)
  {
    match item
    case Declare(name) => AddLabel(p, name)
    case Execute(i) => AddInstr(p, i)
    case LineEnd => p
  }

  /** The program that items build. */
  function Build(items: seq<Item>, p: Program): ParseResult {
    if items == [] then ParseResult(true, p)
    else if !Fits(items[0], p) then ParseResult(false, p)
    else Build(items[1..], Add(items[0], p))
  }

  lemma ParseOperandComplete(o: Operand, rest: seq<Token>)
    requires Writable(o) && o != NoOperand
    ensures ParseOperand(OperandTokens(o) + rest) == Some((o, |OperandTokens(o)|))
  {
  }

  lemma ParseInstrComplete(i: Instr, rest: seq<Token>)
    requires WritableInstr(i) && AtEnd(rest)
    ensures ParseInstr(i.opcode, OperandsTokens(i) + rest) == Some((i, |OperandsTokens(i)|))
  {
    hide ParseOperand, OperandTokens;
    NoOperandTokens();
    var ts := OperandsTokens(i) + rest;
    assert ts[|OperandsTokens(i)|..] == rest;
    if i.opcode != RET {
      var n := |OperandTokens(i.opr1)|;
      var after := ts[n..];
      assert ts == OperandTokens(i.opr1) + after;
      ParseOperandComplete(i.opr1, after);
      StartsOperand(i.opr1, after);
      if i.opr2 != NoOperand {
        assert ts[n] == COMMA && ts[n + 1..] == OperandTokens(i.opr2) + rest;
        ParseOperandComplete(i.opr2, rest);
      }
    }
  }

  lemma StartsOperand(o: Operand, rest: seq<Token>)
    requires Writable(o) && o != NoOperand
    ensures !AtEnd(OperandTokens(o) + rest)
  {
  }

  lemma ParseItem(item: Item, rest: seq<Token>, p: Program)
    requires item.Execute? ==> WritableInstr(item.instr) && AtEnd(rest)
    ensures ParseFrom(ItemTokens(item) + rest, p)
         == if Fits(item, p) then ParseFrom(rest, Add(item, p)) else ParseResult(false, p)
  {
    hide ParseInstr, OperandsTokens, WritableInstr;
    var ts := ItemTokens(item) + rest;
    assert ts[|ItemTokens(item)|..] == rest;
    if item.Execute? {
      assert ts[1..] == OperandsTokens(item.instr) + rest;
      ParseInstrComplete(item.instr, rest);
    }
  }

  /** The parser accepts the tokens of well-formed items and builds their
      program. */
  lemma {:induction false} ParserComplete(items: seq<Item>, p: Program)
    requires WellFormed(items)
    ensures ParseFrom(Flatten(items), p) == Build(items, p)
    decreases |items|
  {
    hide ParseFrom, WritableInstr, ItemTokens;
    if items == [] {
      ParseNothing(p);
    } else {
      var rest := items[1..];
      assert WellFormed(rest) by {
        assert forall k :: 0 <= k < |rest| ==> rest[k] == items[k + 1];
      }
      assert items[0].Execute? ==> rest == [] || rest[0] == LineEnd;
      if items[0].Execute? { FlattenAtEnd(rest); }
      ParseItem(items[0], Flatten(rest), p);
      if Fits(items[0], p) { ParserComplete(rest, Add(items[0], p)); }
    }
  }

  lemma ParseNothing(p: Program)
    ensures ParseFrom([], p) == ParseResult(true, p)
  {
  }

  lemma FlattenAtEnd(rest: seq<Item>)
    requires rest == [] || rest[0] == LineEnd
    ensures AtEnd(Flatten(rest))
  {
  }

  lemma ParseOperandSound(ts: seq<Token>)
    requires ParseOperand(ts).Some?
    ensures var (o, n) := ParseOperand(ts).value; Writable(o) && ts[..n] == OperandTokens(o)
  {
  }

  lemma ParseInstrSound(op: Opcode, ts: seq<Token>)
    requires ParseInstr(op, ts).Some?
    ensures var (i, n) := ParseInstr(op, ts).value;
            WritableInstr(i) && i.opcode == op && ts[..n] == OperandsTokens(i) && AtEnd(ts[n..])
  {
    hide ParseOperand, OperandTokens, Accepts;
    if op != RET && !AtEnd(ts) {
      var (a, n) := ParseOperand(ts).value;
      ParseOperandSound(ts);
      if n < |ts| && ts[n] == COMMA {
        var rest := ts[n + 1..];
        var (b, m) := ParseOperand(rest).value;
        ParseOperandSound(rest);
        assert ts[..n + 1 + m] == ts[..n] + [COMMA] + rest[..m];
      }
    }
    assert OperandTokens(NoOperand) == [] by { NoOperandTokens(); }
  }

  lemma NoOperandTokens()
    ensures OperandTokens(NoOperand) == []
  {
  }

  /** Parsing goes item by item: it stops, at the end or with an error, or the
      first item of the tokens is added and the rest parsed. */
  lemma FirstItem(ts: seq<Token>, p: Program) returns (item: Option<Item>)
    ensures item.None? ==> ParseFrom(ts, p) == ParseResult(ts == [], p)
    ensures item.Some? ==> StartsWith(ts, item.value) && Fits(item.value, p)
    ensures item.Some? ==> ParseFrom(ts, p) == ParseFrom(ts[|ItemTokens(item.value)|..], Add(item.value, p))
  {
    hide ParseInstr, OperandsTokens, WritableInstr;
    item := None;
    if ts != [] {
      match ts[0]
      case NEWLINE => item := Some(LineEnd);
      case IDENT(name) =>
        if |ts| >= 2 && ts[1] == COLON && |p.instrs| <= 0xFFFF { item := Some(Declare(name)); }
      case OPCODE(op) =>
        var r := ParseInstr(op, ts[1..]);
        if r.Some? {
          var (i, n) := r.value;
          ParseInstrSound(op, ts[1..]);
          item := Some(Execute(i));
          assert ts == [ts[0]] + ts[1..][..n] + ts[1..][n..];
          assert ts[1..][n..] == ts[1 + n..];
        }
      case _ =>
    }
  }

  /** The tokens start with an item; an instruction is writable and ends its
      line. */
  ghost predicate StartsWith(ts: seq<Token>, item: Item) {
    && |ItemTokens(item)| > 0 && ItemTokens(item) <= ts
    && (item.Execute? ==> WritableInstr(item.instr) && AtEnd(ts[|ItemTokens(item)|..]))
  }

  /** Every text the parser accepts is made of well-formed items. */
  lemma {:induction false} ParserSound(ts: seq<Token>, p: Program) returns (items: seq<Item>)
    requires ParseFrom(ts, p).ok
    ensures WellFormed(items) && Flatten(items) == ts
    ensures Build(items, p) == ParseFrom(ts, p)
    decreases |ts|
  {
    hide ParseFrom, WritableInstr, ItemTokens;
    var item := FirstItem(ts, p);
    if item.None? {
      return [];
    }
    var first := item.value;
    var rest := ParserSound(ts[|ItemTokens(first)|..], Add(first, p));
    if first.Execute? { EndStartsLine(rest); }
    items := [first] + rest;
    assert items[1..] == rest;
  }

  /** The language of the parser, both ways: it accepts a token sequence with a
      result exactly when well-formed items spell it and build that result. */
  lemma ParserExact(ts: seq<Token>, p: Program, q: Program)
    ensures ParseFrom(ts, p) == ParseResult(true, q)
       <==> exists items :: WellFormed(items) && Flatten(items) == ts && Build(items, p) == ParseResult(true, q)
  {
    hide ParseFrom, WellFormed, Flatten, Build;
    if ParseFrom(ts, p) == ParseResult(true, q) {
      var items := ParserSound(ts, p);
    }
    forall items | WellFormed(items) && Flatten(items) == ts
      ensures ParseFrom(ts, p) == Build(items, p)
    {
      ParserComplete(items, p);
    }
  }

  lemma EndStartsLine(rest: seq<Item>)
    requires AtEnd(Flatten(rest))
    ensures rest == [] || rest[0] == LineEnd
  {
  }

  // ---- the label table ----

  lemma AddedInOrder(item: Item, p: Program)
    requires LabelsInOrder(p.labels, |p.instrs|) && Fits(item, p)
    ensures var q := Add(item, p); LabelsInOrder(q.labels, |q.instrs|) && |q.instrs| >= |p.instrs|
  {
  }

  /** Labels get the instruction count at their declaration, so addresses are in
      order and none is past the end. */
  lemma {:induction false} LabelTableOrdered(ts: seq<Token>, p: Program)
    requires LabelsInOrder(p.labels, |p.instrs|)
    ensures var r := ParseFrom(ts, p).program;
            LabelsInOrder(r.labels, |r.instrs|) && |r.instrs| >= |p.instrs|
    decreases |ts|
  {
    hide LabelsInOrder, ParseFrom, ItemTokens, Add, Fits;
    var item := FirstItem(ts, p);
    if item.Some? {
      AddedInOrder(item.value, p);
      LabelTableOrdered(ts[|ItemTokens(item.value)|..], Add(item.value, p));
    }
  }

  // ---- what the tables hold ----

  function InstrsIn(items: seq<Item>): seq<Instr> {
    if items == [] then []
    else (if items[0].Execute? then [items[0].instr] else []) + InstrsIn(items[1..])
  }

  /** The declared names, each with the number of instructions before it. */
  function DeclaredIn(items: seq<Item>, before: nat): seq<(string, nat)> {
    if items == [] then []
    else match items[0]
      case Declare(name) => [(name, before)] + DeclaredIn(items[1..], before)
      case Execute(i) => DeclaredIn(items[1..], before + 1)
      case LineEnd => DeclaredIn(items[1..], before)
  }

  /** The labels are these declarations, none of the counts cut to 16 bits. */
  ghost predicate LabelsAre(labels: seq<Label>, declared: seq<(string, nat)>) {
    && |labels| == |declared|
    && forall k :: 0 <= k < |labels| ==> labels[k].name == declared[k].0 && labels[k].address == declared[k].1
  }

  lemma {:induction false} BuildCounts(items: seq<Item>, p: Program)
    requires Build(items, p).ok
    ensures var q := Build(items, p).program;
            && q.instrs == p.instrs + InstrsIn(items)
            && p.labels <= q.labels
            && LabelsAre(q.labels[|p.labels|..], DeclaredIn(items, |p.instrs|))
  {
    if items != [] {
      var next := Add(items[0], p);
      BuildCounts(items[1..], next);
      var q := Build(items, p).program;
      if items[0].Declare? {
        assert q.labels[|p.labels|..] == [next.labels[|p.labels|]] + q.labels[|next.labels|..];
      }
    }
  }

  /** The tables of a parsed text: its instructions in order, and its labels with
      the instruction count at their declaration as address. */
  lemma TablesOfText(text: string) returns (items: seq<Item>)
    requires Parse(text).ok
    ensures WellFormed(items) && Flatten(items) == Tokens(text)
    ensures Parse(text).program.instrs == InstrsIn(items)
    ensures LabelsAre(Parse(text).program.labels, DeclaredIn(items, 0))
  {
    hide WellFormed, Flatten, Tokens, ParseFrom;
    items := ParserSound(Tokens(text), EMPTY);
    BuildCounts(items, EMPTY);
    var q := Parse(text).program;
    assert q.labels[0..] == q.labels;
  }
}
