/** Printing and parsing undo each other. */
module RoundTrip {
  import opened Isa
  import opened Options
  import opened Names
  import opened Lexing
  import opened ProgramStore
  import opened Grammar
  import opened Listing

  // ---- what can be written in source text ----

  predicate WordShaped(w: string) {
    w != "" && IsWordStart(w[0]) && forall c :: c in w ==> IsWordChar(c)
  }

  /** An identifier that is neither a mnemonic nor a register name. */
  predicate ValidName(w: string) { WordShaped(w) && WordToken(w) == IDENT(w) }

  predicate Printable(o: Operand) {
    match o
    case Imm(n) => n >= 0
    case LabelOperand(name) => ValidName(name)
    case Mem(MemImm(n)) => n >= 0
    case Mem(MemLabel(name)) => ValidName(name)
    case _ => Writable(o)
  }

  predicate PrintableInstr(i: Instr) { WritableInstr(i) && Printable(i.opr1) && Printable(i.opr2) }

  /** Accepted shapes, immediates that are not negative, proper names, and a
      label table in order. */
  ghost predicate PrintableProgram(p: Program) {
    && (forall i :: i in p.instrs ==> PrintableInstr(i))
    && (forall l :: l in p.labels ==> ValidName(l.name))
    && LabelsInOrder(p.labels, |p.instrs|)
  }

  predicate PrintableItem(item: Item) {
    match item
    case Declare(name) => ValidName(name)
    case Execute(i) => PrintableInstr(i)
    case LineEnd => true
  }

  // ---- scanning printed text ----

  /** What may follow a word or a number. */
  predicate Delimited(rest: string) { rest == "" || !IsWordChar(rest[0]) }

  lemma TokensStart(t: string, rest: string, token: Token)
    requires t != "" && !IsBlank(t[0]) && t[0] != ';'
    requires Scan(t + rest) == (token, |t|)
    ensures Tokens(t + rest) == [token] + Tokens(rest)
  {
    hide Scan;
    var text := t + rest;
    assert Skip(text) == 0;
    assert text[0..] == text && text[|t|..] == rest;
  }

  /** Text that the skip gets past makes no difference to the tokens. */
  lemma TokensSkipped(t: string, n: nat)
    requires n <= |t| && Skip(t) == n + Skip(t[n..])
    ensures Tokens(t) == Tokens(t[n..])
  {
    hide Skip, Lex;
    LexSkipped(t, n);
    assert t[n + Lex(t[n..]).end..] == t[n..][Lex(t[n..]).end..];
  }

  lemma LexSkipped(t: string, n: nat)
    requires n <= |t| && Skip(t) == n + Skip(t[n..])
    ensures var l := Lex(t[n..]); Lex(t) == Lexed(l.token, n + l.start, n + l.end)
  {
    hide Scan, Skip;
    var u := t[n..];
    var k := Skip(u);
    if k < |u| {
      assert t[n + k..] == u[k..];
      var (token, m) := Scan(u[k..]);
      assert Lex(u) == Lexed(token, k, k + m);
      assert Lex(t) == Lexed(token, n + k, n + k + m);
    }
  }

  lemma TokensBlank(c: char, rest: string)
    requires IsBlank(c)
    ensures Tokens([c] + rest) == Tokens(rest)
  {
    hide Tokens, Scan;
    assert ([c] + rest)[1..] == rest;
    TokensSkipped([c] + rest, 1);
  }

  lemma {:induction false} WordSpanOf(w: string, rest: string)
    requires (forall c :: c in w ==> IsWordChar(c)) && Delimited(rest)
    ensures WordSpan(w + rest) == |w|
  {
    if w == "" {
      assert w + rest == rest;
    } else {
      assert (w + rest)[1..] == w[1..] + rest;
      WordSpanOf(w[1..], rest);
    }
  }

  lemma TokensWord(w: string, rest: string)
    requires WordShaped(w) && Delimited(rest)
    ensures Tokens(w + rest) == [WordToken(w)] + Tokens(rest)
  {
    hide WordToken, Strtol;
    WordSpanOf(w, rest);
    assert (w + rest)[..|w|] == w;
    TokensStart(w, rest, WordToken(w));
  }

  lemma TokensColon(rest: string)
    ensures Tokens(":" + rest) == [COLON] + Tokens(rest)
  {
    TokensStart(":", rest, COLON);
  }

  lemma TokensComma(rest: string)
    ensures Tokens(", " + rest) == [COMMA] + Tokens(rest)
  {
    assert ", " + rest == "," + (" " + rest);
    TokensStart(",", " " + rest, COMMA);
    TokensBlank(' ', rest);
  }

  lemma TokensBrackets(rest: string)
    ensures Tokens("[" + rest) == [LBRACKET] + Tokens(rest)
    ensures Tokens("]" + rest) == [RBRACKET] + Tokens(rest)
    ensures Tokens("\n" + rest) == [NEWLINE] + Tokens(rest)
  {
    TokensStart("[", rest, LBRACKET);
    TokensStart("]", rest, RBRACKET);
    TokensStart("\n", rest, NEWLINE);
  }

  // ---- numbers: strtol with base 0 inverts decimal printing ----

  /** Decimal digits that spell n, with no leading zero but for 0 itself. */
  lemma {:induction false} DecimalDigits(n: nat)
    ensures forall c :: c in Decimal(n) ==> IsDigit(c)
    ensures NumberOf(Decimal(n), 10) == n
    ensures Decimal(n)[0] == '0' <==> n == 0
    ensures n == 0 ==> Decimal(n) == "0"
  {
    if n < 10 {
      assert Decimal(n)[..0] == "";
    } else {
      DecimalDigits(n / 10);
      var s := Decimal(n);
      assert s[..|s| - 1] == Decimal(n / 10);
      assert s[0] == Decimal(n / 10)[0];
    }
  }

  lemma {:induction false} DigitSpanOf(w: string, rest: string, base: nat)
    requires (forall c :: c in w ==> DigitValue(c) < base) && (rest != "" ==> DigitValue(rest[0]) >= base)
    ensures DigitSpan(w + rest, base) == |w|
  {
    if w == "" {
      assert w + rest == rest;
    } else {
      assert (w + rest)[1..] == w[1..] + rest;
      DigitSpanOf(w[1..], rest, base);
    }
  }

  lemma StrtolOfDecimal(n: nat, rest: string)
    requires Delimited(rest)
    ensures (Decimal(n) + rest)[0] == Decimal(n)[0]
    ensures IsDigit(Decimal(n)[0])
    ensures Strtol(Decimal(n) + rest) == (n, |Decimal(n)|)
  {
    hide Decimal, NumberOf;
    DecimalDigits(n);
    var w := Decimal(n);
    var t := w + rest;
    assert t[..|w|] == w;
    assert w[0] in w;
    if n == 0 {
      DigitSpanOf(w, rest, 8);
      assert NumberOf("0", 8) == 0 by { ZeroText(); }
    } else {
      DigitSpanOf(w, rest, 10);
    }
  }

  lemma ZeroText()
    ensures NumberOf("0", 8) == 0
  {
    assert "0"[..0] == "";
  }

  lemma TokensNumber(n: Int32, rest: string)
    requires n >= 0 && Delimited(rest)
    ensures Tokens(IntText(n) + rest) == [NUMBER(n)] + Tokens(rest)
  {
    hide Decimal, Strtol;
    StrtolOfDecimal(n, rest);
    TokensStart(Decimal(n), rest, NUMBER(n));
  }

  // ---- names ----

  lemma NamesAreWords(op: Opcode, r: Reg)
    ensures WordShaped(OpcodeName(op)) && WordToken(OpcodeName(op)) == OPCODE(op)
    ensures WordShaped(RegName(r)) && WordToken(RegName(r)) == REG(r)
  {
    hide TokenizeOpcode, TokenizeReg;
    OpcodeRecognised(OpcodeName(op), op);
    RegRecognised(RegName(r), r);
    forall other: Opcode
      ensures TokenizeOpcode(RegName(r)) != Some(other)
    {
      OpcodeRecognised(RegName(r), other);
      assert |OpcodeName(other)| == 3 ==> !CaseVariant(RegName(r)[2], OpcodeName(other)[2]);
    }
  }

  // ---- instructions and lines ----

  lemma TokensSimple(o: Operand, rest: string)
    requires Printable(o) && (o.Imm? || o.RegOperand? || o.LabelOperand?) && Delimited(rest)
    ensures Tokens(OperandText(o) + rest) == OperandTokens(o) + Tokens(rest)
  {
    hide Tokens, WordToken, WordShaped, RegName, IntText;
    match o
    case Imm(n) => TokensNumber(n, rest);
    case RegOperand(r) => NamesAreWords(MOV, r); TokensWord(RegName(r), rest);
    case LabelOperand(name) => TokensWord(name, rest);
  }

  lemma TokensOperand(o: Operand, rest: string)
    requires Printable(o) && o != NoOperand && Delimited(rest)
    ensures Tokens(OperandText(o) + rest) == OperandTokens(o) + Tokens(rest)
  {
    hide Tokens, WordToken, WordShaped, RegName, IntText;
    if o.Mem? {
      var inner := match o.mem
                   case MemImm(n) => Imm(n)
                   case MemReg(r) => RegOperand(r)
                   case MemLabel(name) => LabelOperand(name)
                   case MemNone => NoOperand;
      assert OperandText(o) + rest == "[" + (OperandText(inner) + ("]" + rest));
      TokensBrackets(OperandText(inner) + ("]" + rest));
      TokensSimple(inner, "]" + rest);
      TokensBrackets(rest);
    } else {
      TokensSimple(o, rest);
    }
  }

  lemma TokensInstr(i: Instr, rest: string)
    requires PrintableInstr(i) && Delimited(rest)
    ensures Tokens(InstrText(i) + rest) == [OPCODE(i.opcode)] + OperandsTokens(i) + Tokens(rest)
  {
    hide Tokens, WordToken, WordShaped, OpcodeName, OperandText, OperandTokens, Printable;
    NoOperandTokens();
    NamesAreWords(i.opcode, 0);
    var second := (if i.opr2 != NoOperand then ", " + OperandText(i.opr2) else "") + rest;
    var first := (if i.opr1 != NoOperand then OperandText(i.opr1) else "") + second;
    assert InstrText(i) + rest == OpcodeName(i.opcode) + (" " + first);
    TokensWord(OpcodeName(i.opcode), " " + first);
    TokensBlank(' ', first);
    if i.opr2 != NoOperand {
      assert second == ", " + (OperandText(i.opr2) + rest);
      TokensComma(OperandText(i.opr2) + rest);
      TokensOperand(i.opr2, rest);
    } else {
      assert second == rest;
    }
    if i.opr1 != NoOperand {
      TokensOperand(i.opr1, second);
    } else {
      assert first == second;
    }
  }

  lemma TokensItem(item: Item, rest: string)
    requires PrintableItem(item) && (item.Execute? ==> Delimited(rest))
    ensures Tokens(ItemText(item) + rest) == ItemTokens(item) + Tokens(rest)
  {
    hide Tokens, WordToken, WordShaped, InstrText, OperandsTokens, PrintableInstr;
    match item
    case Declare(name) =>
      assert ItemText(item) + rest == name + (":" + rest);
      TokensWord(name, ":" + rest);
      TokensColon(rest);
    case Execute(i) => TokensInstr(i, rest);
    case LineEnd => TokensBrackets(rest);
  }

  /** Scanning the text of items gives their tokens. */
  lemma {:induction false} TokensItems(items: seq<Item>)
    requires WellFormed(items) && forall item :: item in items ==> PrintableItem(item)
    ensures Tokens(ItemsText(items)) == Flatten(items)
  {
    hide Tokens, ItemText, ItemTokens, PrintableItem, WritableInstr;
    if items == [] {
      NoTokens();
    } else {
      var rest := items[1..];
      assert forall k :: 0 <= k < |rest| ==> rest[k] == items[k + 1];
      if items[0].Execute? && rest != [] {
        assert rest[0] == LineEnd;
        LineEndText(rest);
      }
      TokensItem(items[0], ItemsText(rest));
      TokensItems(rest);
    }
  }

  lemma NoTokens()
    ensures Tokens("") == []
  {
  }

  lemma LineEndText(items: seq<Item>)
    requires items != [] && items[0] == LineEnd
    ensures Delimited(ItemsText(items))
  {
  }

  // ---- listings ----

  lemma {:induction false} LinesWellFormed(p: Program, i: nat, j: nat)
    requires i <= |p.instrs| && j <= |p.labels| && PrintableProgram(p)
    ensures WellFormed(LinesFrom(p, i, j))
    ensures forall item :: item in LinesFrom(p, i, j) ==> PrintableItem(item)
    decreases |p.instrs| - i, |p.labels| - j
  {
    hide PrintableItem, WritableInstr, PrintableInstr, ValidName, LabelsInOrder;
    if j < |p.labels| && p.labels[j].address <= i {
      LinesWellFormed(p, i, j + 1);
      assert p.labels[j] in p.labels;
      LineWellFormed(Declare(p.labels[j].name), LinesFrom(p, i, j + 1));
    } else if i < |p.instrs| {
      LinesWellFormed(p, i + 1, j);
      assert p.instrs[i] in p.instrs;
      LineWellFormed(Execute(p.instrs[i]), LinesFrom(p, i + 1, j));
    }
  }

  lemma LineWellFormed(item: Item, rest: seq<Item>)
    requires match item
             case Declare(name) => ValidName(name)
             case Execute(i) => PrintableInstr(i)
             case LineEnd => false
    requires WellFormed(rest) && forall x :: x in rest ==> PrintableItem(x)
    ensures WellFormed([item, LineEnd] + rest)
    ensures forall x :: x in [item, LineEnd] + rest ==> PrintableItem(x)
  {
    hide WritableInstr, ValidName, Printable;
    var items := [item, LineEnd] + rest;
    assert forall k :: 2 <= k < |items| ==> items[k] == rest[k - 2];
  }

  /** Building the lines from (i, j) on adds exactly the instructions from i and
      the labels from j. */
  lemma {:induction false} LinesBuild(p: Program, i: nat, j: nat)
    requires i <= |p.instrs| && j <= |p.labels|
    requires LabelsInOrder(p.labels, |p.instrs|)
    requires forall k :: j <= k < |p.labels| ==> p.labels[k].address >= i
    ensures Build(LinesFrom(p, i, j), Program(p.instrs[..i], p.labels[..j])) == ParseResult(true, p)
    decreases |p.instrs| - i, |p.labels| - j
  {
    hide Build;
    var q := Program(p.instrs[..i], p.labels[..j]);
    if j < |p.labels| && p.labels[j].address <= i {
      var first := p.labels[j];
      LinesBuild(p, i, j + 1);
      BuildLine(Declare(first.name), LinesFrom(p, i, j + 1), q);
      assert p.labels[..j + 1] == p.labels[..j] + [first];
    } else if i < |p.instrs| {
      LinesBuild(p, i + 1, j);
      BuildLine(Execute(p.instrs[i]), LinesFrom(p, i + 1, j), q);
      assert p.instrs[..i + 1] == p.instrs[..i] + [p.instrs[i]];
    } else {
      BuildNothing(p);
      assert p.instrs[..i] == p.instrs && p.labels[..j] == p.labels;
    }
  }

  lemma BuildNothing(p: Program)
    ensures Build([], p) == ParseResult(true, p)
  {
  }

  lemma BuildLine(item: Item, rest: seq<Item>, p: Program)
    requires Fits(item, p)
    ensures Build([item, LineEnd] + rest, p) == Build(rest, Add(item, p))
  {
    var items := [item, LineEnd] + rest;
    assert items[1..] == [LineEnd] + rest && items[1..][1..] == rest;
  }

  /** The lines of a program build it. */
  lemma ListingBuilds(p: Program)
    requires LabelsInOrder(p.labels, |p.instrs|)
    ensures Build(LinesFrom(p, 0, 0), EMPTY) == ParseResult(true, p)
  {
    hide Build, LinesFrom;
    LinesBuild(p, 0, 0);
    assert p.instrs[..0] == [] && p.labels[..0] == [];
  }

  /** Scanning and parsing a listing gives the program back. */
  lemma ListingParses(p: Program)
    requires PrintableProgram(p)
    ensures Parse(ListingOf(p)) == ParseResult(true, p)
  {
    var items := LinesFrom(p, 0, 0);
    LinesWellFormed(p, 0, 0);
    TokensItems(items);
    ParserComplete(items, EMPTY);
    ListingBuilds(p);
  }

  // ---- every parsed program can be listed ----

  /** Scanned numbers are not negative; scanned identifiers are valid names. */
  predicate Proper(token: Token) {
    && (token.NUMBER? ==> token.number >= 0)
    && (token.IDENT? ==> ValidName(token.name))
  }

  ghost predicate AllProper(ts: seq<Token>) { forall token :: token in ts ==> Proper(token) }

  lemma {:induction false} WordSpanChars(t: string)
    ensures forall c :: c in t[..WordSpan(t)] ==> IsWordChar(c)
  {
    if t != "" && IsWordChar(t[0]) {
      WordSpanChars(t[1..]);
      assert t[..WordSpan(t)] == [t[0]] + t[1..][..WordSpan(t[1..])];
    }
  }

  lemma ScanProper(t: string)
    requires t != ""
    ensures Proper(Scan(t).0)
  {
    hide Strtol, TokenizeOpcode, TokenizeReg;
    if IsWordStart(t[0]) {
      WordSpanChars(t);
    }
  }

  lemma {:induction false} TokensProper(t: string)
    ensures AllProper(Tokens(t))
    decreases |t|
  {
    hide Scan, Proper;
    var l := Lex(t);
    if l.token != EOF {
      ScanProper(t[l.start..]);
      TokensProper(t[l.end..]);
    }
  }

  lemma ProperInstr(i: Instr)
    requires WritableInstr(i) && AllProper(OperandsTokens(i))
    ensures PrintableInstr(i)
  {
    hide ValidName, Accepts;
    ProperOperand(i.opr1);
    if i.opr2 != NoOperand {
      assert forall token :: token in OperandTokens(i.opr2) ==> token in OperandsTokens(i);
      ProperOperand(i.opr2);
    }
  }

  lemma ProperOperand(o: Operand)
    requires Writable(o) && AllProper(OperandTokens(o))
    ensures Printable(o)
  {
    hide ValidName;
    var ts := OperandTokens(o);
    if |ts| == 1 {
      assert Proper(ts[0]);
    } else if |ts| == 3 {
      assert Proper(ts[1]);
    }
  }

  ghost predicate PrintableParts(p: Program) {
    && (forall i :: i in p.instrs ==> PrintableInstr(i))
    && (forall l :: l in p.labels ==> ValidName(l.name))
  }

  lemma AddedParts(item: Item, p: Program)
    requires AllProper(ItemTokens(item)) && (item.Execute? ==> WritableInstr(item.instr))
    requires PrintableParts(p) && Fits(item, p)
    ensures PrintableParts(Add(item, p))
  {
    hide PrintableInstr, WritableInstr, OperandsTokens, ValidName;
    match item
    case Declare(name) => assert Proper(ItemTokens(item)[0]);
    case Execute(i) =>
      assert forall token :: token in OperandsTokens(i) ==> token in ItemTokens(item);
      ProperInstr(i);
    case LineEnd =>
  }

  lemma {:induction false} ParsedParts(ts: seq<Token>, p: Program)
    requires AllProper(ts) && PrintableParts(p)
    ensures PrintableParts(ParseFrom(ts, p).program)
    decreases |ts|
  {
    hide PrintableParts, Proper, ParseFrom, ItemTokens, WritableInstr, Add, Fits;
    var item := FirstItem(ts, p);
    if item.Some? {
      AddedParts(item.value, p);
      ParsedParts(ts[|ItemTokens(item.value)|..], Add(item.value, p));
    }
  }

  lemma ParsedIsPrintable(text: string)
    ensures PrintableProgram(Parse(text).program)
  {
    TokensProper(text);
    ParsedParts(Tokens(text), EMPTY);
    LabelTableOrdered(Tokens(text), EMPTY);
  }

  /** The listing of a parsed text is another text for the same program. */
  lemma ListingIsCanonical(text: string)
    requires Parse(text).ok
    ensures Parse(ListingOf(Parse(text).program)) == Parse(text)
  {
    ParsedIsPrintable(text);
    ListingParses(Parse(text).program);
  }

  /** The programs with a source text are exactly the printable ones. */
  lemma SourcesExactly(p: Program)
    ensures (exists text :: Parse(text) == ParseResult(true, p)) <==> PrintableProgram(p)
  {
    forall text | Parse(text) == ParseResult(true, p)
      ensures PrintableProgram(p)
    {
      ParsedIsPrintable(text);
    }
    if PrintableProgram(p) {
      ListingParses(p);
    }
  }
}
