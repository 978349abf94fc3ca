/** The scanner's character classes, words, numerals and gaps written out as
    characters, and listings laid out with any blanks and comments. */
module LexicalReference {
  import opened Isa
  import opened Options
  import opened Names
  import opened Lexing
  import opened ProgramStore
  import opened Grammar
  import opened Listing
  import opened RoundTrip

  // ---- between tokens ----

  /** Tab, vertical tab, form feed, carriage return and space mean nothing. */
  lemma BlankSkipped(c: char, t: string)
    requires c as int in [9, 11, 12, 13, 32]
    ensures Tokens([c] + t) == Tokens(t)
  {
    TokensBlank(c, t);
  }

  /** Any other character but a semicolon starts a token. */
  lemma TokenStartsHere(t: string)
    requires t != "" && t[0] as int !in [9, 11, 12, 13, 32] && t[0] != ';'
    ensures Lex(t).start == 0 && Lex(t).token != EOF
  {
    hide Scan;
  }

  /** A comment reaches to the end of its line, which is a token. */
  lemma CommentSkipped(body: string, rest: string)
    requires '\n' !in body && (rest == "" || rest[0] == '\n')
    ensures Tokens(";" + body + rest) == Tokens(rest)
  {
    hide Tokens;
    var gap := ";" + body;
    CommentSpan(gap, rest);
    assert (gap + rest)[|gap|..] == rest;
    TokensSkipped(gap + rest, |gap|);
  }

  lemma {:induction false} CommentSpan(gap: string, rest: string)
    requires '\n' !in gap && (rest == "" || rest[0] == '\n')
    ensures CommentLength(gap + rest) == |gap|
  {
    if gap == "" {
      assert gap + rest == rest;
    } else {
      assert (gap + rest)[1..] == gap[1..] + rest;
      CommentSpan(gap[1..], rest);
    }
  }

  // ---- characters that are tokens ----

  lemma Punctuation(rest: string)
    ensures Tokens([10 as char] + rest) == [NEWLINE] + Tokens(rest)
    ensures Tokens([44 as char] + rest) == [COMMA] + Tokens(rest)
    ensures Tokens([58 as char] + rest) == [COLON] + Tokens(rest)
    ensures Tokens([91 as char] + rest) == [LBRACKET] + Tokens(rest)
    ensures Tokens([93 as char] + rest) == [RBRACKET] + Tokens(rest)
  {
    hide Tokens, Scan;
    TokensBrackets(rest);
    TokensColon(rest);
    ScanComma(rest);
    TokensStart(",", rest, COMMA);
  }

  lemma ScanComma(rest: string)
    ensures Scan("," + rest) == (COMMA, 1)
  {
  }

  /** Every other character that starts no word, number or comment. */
  lemma OtherCharacter(c: char, rest: string)
    requires c !in ",:[]\n_; " && !(9 <= c as int <= 13)
    requires !('a' <= c <= 'z' || 'A' <= c <= 'Z' || '0' <= c <= '9')
    ensures Tokens([c] + rest) == [INVALID] + Tokens(rest)
  {
    TokensStart([c], rest, INVALID);
  }

  // ---- words ----

  /** A word starts with a letter or underscore, goes on as long as letters,
      digits and underscores do, and is a mnemonic, a register or a name. */
  lemma Words(w: string, rest: string)
    requires w != "" && ('a' <= w[0] <= 'z' || 'A' <= w[0] <= 'Z' || w[0] == '_')
    requires forall c :: c in w ==> 'a' <= c <= 'z' || 'A' <= c <= 'Z' || '0' <= c <= '9' || c == '_'
    requires rest != "" ==>
               var c := rest[0]; !('a' <= c <= 'z' || 'A' <= c <= 'Z' || '0' <= c <= '9' || c == '_')
    ensures forall op :: TokenizeOpcode(w) == Some(op) ==> Tokens(w + rest) == [OPCODE(op)] + Tokens(rest)
    ensures forall r :: TokenizeOpcode(w).None? && TokenizeReg(w) == Some(r) ==>
              Tokens(w + rest) == [REG(r)] + Tokens(rest)
    ensures TokenizeOpcode(w).None? && TokenizeReg(w).None? ==> Tokens(w + rest) == [IDENT(w)] + Tokens(rest)
  {
    hide Tokens, TokenizeOpcode, TokenizeReg;
    TokensWord(w, rest);
  }

  /** The mnemonics, letter by letter in either case. */
  lemma Mnemonics(w: string)
    ensures TokenizeOpcode(w) == Some(MOV) <==> |w| == 3 && w[0] in "Mm" && w[1] in "Oo" && w[2] in "Vv"
    ensures TokenizeOpcode(w) == Some(LOAD) <==>
              |w| == 4 && w[0] in "Ll" && w[1] in "Oo" && w[2] in "Aa" && w[3] in "Dd"
    ensures TokenizeOpcode(w) == Some(STORE) <==>
              |w| == 5 && w[0] in "Ss" && w[1] in "Tt" && w[2] in "Oo" && w[3] in "Rr" && w[4] in "Ee"
    ensures TokenizeOpcode(w) == Some(ADD) <==> |w| == 3 && w[0] in "Aa" && w[1] in "Dd" && w[2] in "Dd"
    ensures TokenizeOpcode(w) == Some(SUB) <==> |w| == 3 && w[0] in "Ss" && w[1] in "Uu" && w[2] in "Bb"
    ensures TokenizeOpcode(w) == Some(MUL) <==> |w| == 3 && w[0] in "Mm" && w[1] in "Uu" && w[2] in "Ll"
    ensures TokenizeOpcode(w) == Some(DIV) <==> |w| == 3 && w[0] in "Dd" && w[1] in "Ii" && w[2] in "Vv"
    ensures TokenizeOpcode(w) == Some(MOD) <==> |w| == 3 && w[0] in "Mm" && w[1] in "Oo" && w[2] in "Dd"
    ensures TokenizeOpcode(w) == Some(SHL) <==> |w| == 3 && w[0] in "Ss" && w[1] in "Hh" && w[2] in "Ll"
    ensures TokenizeOpcode(w) == Some(SHR) <==> |w| == 3 && w[0] in "Ss" && w[1] in "Hh" && w[2] in "Rr"
    ensures TokenizeOpcode(w) == Some(CMP) <==> |w| == 3 && w[0] in "Cc" && w[1] in "Mm" && w[2] in "Pp"
    ensures TokenizeOpcode(w) == Some(JMP) <==> |w| == 3 && w[0] in "Jj" && w[1] in "Mm" && w[2] in "Pp"
    ensures TokenizeOpcode(w) == Some(JZ) <==> |w| == 2 && w[0] in "Jj" && w[1] in "Zz"
    ensures TokenizeOpcode(w) == Some(JNZ) <==> |w| == 3 && w[0] in "Jj" && w[1] in "Nn" && w[2] in "Zz"
    ensures TokenizeOpcode(w) == Some(CALL) <==>
              |w| == 4 && w[0] in "Cc" && w[1] in "Aa" && w[2] in "Ll" && w[3] in "Ll"
    ensures TokenizeOpcode(w) == Some(RET) <==> |w| == 3 && w[0] in "Rr" && w[1] in "Ee" && w[2] in "Tt"
  {
    hide TokenizeOpcode, CaseVariants;
    Spelled(w, MOV);
    Spelled(w, LOAD);
    Spelled(w, STORE);
    Spelled(w, ADD);
    Spelled(w, SUB);
    Spelled(w, MUL);
    Spelled(w, DIV);
    Spelled(w, MOD);
    Spelled(w, SHL);
    Spelled(w, SHR);
    Spelled(w, CMP);
    Spelled(w, JMP);
    Spelled(w, JZ);
    Spelled(w, JNZ);
    Spelled(w, CALL);
    Spelled(w, RET);
  }

  /** The spellings of a mnemonic, a condition for each of its letters. */
  lemma Spelled(w: string, op: Opcode)
    ensures var name := OpcodeName(op);
            TokenizeOpcode(w) == Some(op) <==>
              (&& |w| == |name| && SpelledAt(w, name, 0) && SpelledAt(w, name, 1)
               && SpelledAt(w, name, 2) && SpelledAt(w, name, 3) && SpelledAt(w, name, 4))
  {
    hide TokenizeOpcode;
    OpcodeRecognised(w, op);
  }

  predicate SpelledAt(w: string, name: string, k: nat) {
    k < |w| && k < |name| ==> w[k] == name[k] || w[k] as int == name[k] as int + 32
  }

  /** RV0 to RV7, the letters in either case. */
  lemma Registers(w: string, r: Reg)
    ensures TokenizeReg(w) == Some(r) <==> |w| == 3 && w[0] in "Rr" && w[1] in "Vv" && w[2] as int == 48 + r
  {
    hide TokenizeReg;
    RegRecognised(w, r);
  }

  // ---- printed lines ----

  /** How operands are printed. */
  lemma PrintedOperands(r: Reg, n: Int32, name: string)
    ensures OperandText(RegOperand(r)) == ['R', 'V', (48 + r) as char]
    ensures n >= 0 ==> OperandText(Imm(n)) == Decimal(n) && OperandText(Mem(MemImm(n))) == "[" + Decimal(n) + "]"
    ensures n < 0 ==>
              OperandText(Imm(n)) == "-" + Decimal(-(n as int)) && OperandText(Mem(MemImm(n))) == "[-" + Decimal(-(n as int)) + "]"
    ensures OperandText(Mem(MemReg(r))) == ['[', 'R', 'V', (48 + r) as char, ']']
    ensures OperandText(LabelOperand(name)) == name && OperandText(Mem(MemLabel(name))) == "[" + name + "]"
  {
    hide Decimal;
    assert n < 0 ==> "[" + ("-" + Decimal(-(n as int))) == "[-" + Decimal(-(n as int));
  }

  /** How instructions are printed. */
  lemma PrintedInstrs(r: Reg, q: Reg, name: string)
    ensures InstrText(Instr(RET, NoOperand, NoOperand)) == "RET "
    ensures InstrText(Instr(CALL, LabelOperand(name), NoOperand)) == "CALL " + name
    ensures InstrText(Instr(ADD, RegOperand(r), RegOperand(q))) == "ADD " + RegName(r) + ", " + RegName(q)
    ensures InstrText(Instr(STORE, Mem(MemReg(q)), RegOperand(r))) == "STORE [" + RegName(q) + "], " + RegName(r)
  {
    hide RegName;
    assert InstrText(Instr(CALL, LabelOperand(name), NoOperand)) == "CALL" + " " + name + "";
    assert "STORE" + " " == "STORE ";
    assert InstrText(Instr(STORE, Mem(MemReg(q)), RegOperand(r))) == "STORE " + ("[" + RegName(q) + "]") + (", " + RegName(r));
    assert InstrText(Instr(ADD, RegOperand(r), RegOperand(q))) == "ADD " + RegName(r) + (", " + RegName(q));
  }

  // ---- layout ----

  /** A gap: blanks, and where a line may end after it also a comment. */
  ghost predicate Gap(gap: string, atEnd: bool) {
    exists k :: 0 <= k <= |gap| && GapAt(gap, atEnd, k)
  }

  ghost predicate GapAt(gap: string, atEnd: bool, k: nat)
    requires k <= |gap|
  {
    && (forall i :: 0 <= i < k ==> gap[i] as int in [9, 11, 12, 13, 32])
    && (k < |gap| ==> atEnd && gap[k] == ';' && '\n' !in gap[k..])
  }

  /** The text of items with a gap before each and one at the end. */
  function LaidOut(items: seq<Item>, gaps: seq<string>): string
    requires |gaps| == |items| + 1
  {
    if items == [] then gaps[0] else gaps[0] + ItemText(items[0]) + LaidOut(items[1..], gaps[1..])
  }

  ghost predicate Gaps(items: seq<Item>, gaps: seq<string>)
    requires |gaps| == |items| + 1
  {
    forall k :: 0 <= k < |gaps| ==> Gap(gaps[k], k == |items| || items[k] == LineEnd)
  }

  lemma {:induction false} GapSkipped(gap: string, k: nat, rest: string, atEnd: bool)
    requires k <= |gap| && GapAt(gap, atEnd, k) && (atEnd ==> rest == "" || rest[0] == '\n')
    ensures Tokens(gap + rest) == Tokens(rest)
    decreases k
  {
    hide Tokens;
    if k > 0 {
      assert gap + rest == [gap[0]] + (gap[1..] + rest);
      BlankSkipped(gap[0], gap[1..] + rest);
      assert gap[1..][k - 1..] == gap[k..];
      GapSkipped(gap[1..], k - 1, rest, atEnd);
    } else if gap != "" {
      assert gap == ";" + gap[1..] && gap[0..] == gap;
      CommentSkipped(gap[1..], rest);
    } else {
      assert gap + rest == rest;
    }
  }

  /** Blanks and comments do not change the tokens of items. */
  lemma {:induction false} TokensLaidOut(items: seq<Item>, gaps: seq<string>)
    requires |gaps| == |items| + 1 && Gaps(items, gaps)
    requires WellFormed(items) && forall item :: item in items ==> PrintableItem(item)
    ensures Tokens(LaidOut(items, gaps)) == Flatten(items)
    decreases |items|
  {
    hide Tokens, GapAt, ItemText, ItemTokens, PrintableItem, WritableInstr;
    var k :| 0 <= k <= |gaps[0]| && GapAt(gaps[0], items == [] || items[0] == LineEnd, k);
    if items == [] {
      GapSkipped(gaps[0], k, "", true);
      assert gaps[0] + "" == gaps[0];
      NoTokens();
    } else {
      var rest, after := items[1..], LaidOut(items[1..], gaps[1..]);
      assert forall j :: 0 <= j < |rest| ==> rest[j] == items[j + 1];
      TokensLaidOut(rest, gaps[1..]);
      if items[0] == LineEnd { LineEndStarts(after); }
      if items[0].Execute? { AfterInstr(rest, gaps[1..]); }
      GapSkipped(gaps[0], k, ItemText(items[0]) + after, items[0] == LineEnd);
      TokensItem(items[0], after);
      assert LaidOut(items, gaps) == gaps[0] + (ItemText(items[0]) + after);
    }
  }

  lemma LineEndStarts(after: string)
    ensures (ItemText(LineEnd) + after)[0] == '\n'
  {
  }

  /** After an instruction comes a gap, the end of a line, or nothing. */
  lemma AfterInstr(rest: seq<Item>, gaps: seq<string>)
    requires |gaps| == |rest| + 1 && Gaps(rest, gaps) && (rest == [] || rest[0] == LineEnd)
    ensures Delimited(LaidOut(rest, gaps))
  {
    var k :| 0 <= k <= |gaps[0]| && GapAt(gaps[0], true, k);
    if gaps[0] != "" {
      assert LaidOut(rest, gaps)[0] == gaps[0][0];
    } else if rest != [] {
      assert ItemText(rest[0]) == "\n";
      assert LaidOut(rest, gaps)[0] == '\n';
    }
  }

  /** A listing may be indented and trailed by blanks, and its lines may end in
      comments: it still scans and parses to the same program. */
  lemma LaidOutListingParses(p: Program, gaps: seq<string>)
    requires PrintableProgram(p)
    requires |gaps| == |LinesFrom(p, 0, 0)| + 1 && Gaps(LinesFrom(p, 0, 0), gaps)
    ensures Parse(LaidOut(LinesFrom(p, 0, 0), gaps)) == ParseResult(true, p)
  {
    hide Tokens, ParseFrom, Gaps, LinesFrom, WellFormed, PrintableItem, Build, Flatten;
    var items := LinesFrom(p, 0, 0);
    LinesWellFormed(p, 0, 0);
    TokensLaidOut(items, gaps);
    ParserComplete(items, EMPTY);
    ListingBuilds(p);
  }
}
