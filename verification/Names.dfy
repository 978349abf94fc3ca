/** Printed names (rocketvm/common/isa/utility.c) and the recogniser of names in
    source text (rocketasm/lexer.c). */
module Names {
  import opened Isa
  import opened Bits
  import opened Options

  function OpcodeName(op: Opcode): string {
    match op
    case MOV => "MOV"
    case LOAD => "LOAD"
    case STORE => "STORE"
    case ADD => "ADD"
    case SUB => "SUB"
    case MUL => "MUL"
    case DIV => "DIV"
    case MOD => "MOD"
    case SHL => "SHL"
    case SHR => "SHR"
    case CMP => "CMP"
    case JMP => "JMP"
    case JZ => "JZ"
    case JNZ => "JNZ"
    case CALL => "CALL"
    case RET => "RET"
  }

  function RegName(r: Reg): string { "RV" + [DigitChar(r)] }

  function DigitChar(d: nat): char
    requires d < 10
  {
    "0123456789"[d]
  }

  // ---- the recogniser ----

  /** `rsm_tolower`: not a case conversion but `ch | 0x20`. */
  function ToLower(c: char): int { Or(c as int, 0x20) }

  /** `rsm_tolower(c) == l` for a lower-case letter l. */
  predicate Folds(c: char, l: char) { ToLower(c) == l as int }

  function TokenizeOpcode(w: string): Option<Opcode> {
    match |w|
    case 2 => if Folds(w[0], 'j') && Folds(w[1], 'z') then Some(JZ) else None
    case 3 => TokenizeOpcode3(w)
    case 4 =>
      if Folds(w[0], 'l') && Folds(w[1], 'o') && Folds(w[2], 'a') && Folds(w[3], 'd') then Some(LOAD)
      else if Folds(w[0], 'c') && Folds(w[1], 'a') && Folds(w[2], 'l') && Folds(w[3], 'l') then Some(CALL)
      else None
    case 5 =>
      if Folds(w[0], 's') && Folds(w[1], 't') && Folds(w[2], 'o') && Folds(w[3], 'r') && Folds(w[4], 'e')
      then Some(STORE) else None
    case _ => None
  }

  function TokenizeOpcode3(w: string): Option<Opcode>
    requires |w| == 3
  {
    if Folds(w[0], 'm') then
      if Folds(w[1], 'o') && Folds(w[2], 'v') then Some(MOV)
      else if Folds(w[1], 'u') && Folds(w[2], 'l') then Some(MUL)
      else if Folds(w[1], 'o') && Folds(w[2], 'd') then Some(MOD)
      else None
    else if Folds(w[0], 'a') then
      if Folds(w[1], 'd') && Folds(w[2], 'd') then Some(ADD) else None
    else if Folds(w[0], 's') then
      if Folds(w[1], 'u') && Folds(w[2], 'b') then Some(SUB)
      else if Folds(w[1], 'h') && Folds(w[2], 'l') then Some(SHL)
      else if Folds(w[1], 'h') && Folds(w[2], 'r') then Some(SHR)
      else None
    else if Folds(w[0], 'd') then
      if Folds(w[1], 'i') && Folds(w[2], 'v') then Some(DIV) else None
    else if Folds(w[0], 'c') then
      if Folds(w[1], 'm') && Folds(w[2], 'p') then Some(CMP) else None
    else if Folds(w[0], 'j') then
      if Folds(w[1], 'm') && Folds(w[2], 'p') then Some(JMP)
      else if Folds(w[1], 'n') && Folds(w[2], 'z') then Some(JNZ)
      else None
    else if Folds(w[0], 'r') then
      if Folds(w[1], 'e') && Folds(w[2], 't') then Some(RET) else None
    else None
  }

  function TokenizeReg(w: string): Option<Reg> {
    if |w| == 3 && Folds(w[0], 'r') && Folds(w[1], 'v') && '0' <= w[2] <= '7' then
      Some(w[2] as int - '0' as int)
    else None
  }

  // ---- it accepts exactly the case variants of the printed names ----

  /** An upper-case letter or its lower-case variant; anything else only itself. */
  predicate CaseVariant(c: char, upper: char) {
    c == upper || ('A' <= upper <= 'Z' && c as int == upper as int + 32)
  }

  predicate CaseVariants(w: string, name: string) {
    |w| == |name| && forall i :: 0 <= i < |w| ==> CaseVariant(w[i], name[i])
  }

  /** Although `| 0x20` is not a case conversion, against a letter it is one. */
  lemma FoldsExactly(c: char, upper: char)
    requires 'A' <= upper <= 'Z'
    ensures Folds(c, (upper as int + 32) as char) <==> CaseVariant(c, upper)
  {
    hide Or, Pow2, Bit;
    assert Pow2(5) == 32 by { Pow2Values(); assert Pow2(5) == 2 * Pow2(4) by { Pow2Add(1, 4); } }
    OrOneBit(c as int, 5);
    BitIsQuotient(c as int, 5);
  }

  lemma LettersFold(c: char)
    ensures Folds(c, 'a') <==> CaseVariant(c, 'A')
    ensures Folds(c, 'b') <==> CaseVariant(c, 'B')
    ensures Folds(c, 'c') <==> CaseVariant(c, 'C')
    ensures Folds(c, 'd') <==> CaseVariant(c, 'D')
    ensures Folds(c, 'e') <==> CaseVariant(c, 'E')
    ensures Folds(c, 'h') <==> CaseVariant(c, 'H')
    ensures Folds(c, 'i') <==> CaseVariant(c, 'I')
    ensures Folds(c, 'j') <==> CaseVariant(c, 'J')
    ensures Folds(c, 'l') <==> CaseVariant(c, 'L')
    ensures Folds(c, 'm') <==> CaseVariant(c, 'M')
    ensures Folds(c, 'n') <==> CaseVariant(c, 'N')
    ensures Folds(c, 'o') <==> CaseVariant(c, 'O')
    ensures Folds(c, 'p') <==> CaseVariant(c, 'P')
    ensures Folds(c, 'r') <==> CaseVariant(c, 'R')
    ensures Folds(c, 's') <==> CaseVariant(c, 'S')
    ensures Folds(c, 't') <==> CaseVariant(c, 'T')
    ensures Folds(c, 'u') <==> CaseVariant(c, 'U')
    ensures Folds(c, 'v') <==> CaseVariant(c, 'V')
    ensures Folds(c, 'z') <==> CaseVariant(c, 'Z')
  {
    hide Folds;
    forall upper: char | 'A' <= upper <= 'Z'
      ensures Folds(c, (upper as int + 32) as char) <==> CaseVariant(c, upper)
    {
      FoldsExactly(c, upper);
    }
    assert forall upper: char :: 'A' <= upper <= 'Z' ==>
      (Folds(c, (upper as int + 32) as char) <==> CaseVariant(c, upper));
  }

  /** The opcode recogniser accepts the case variants of each printed mnemonic
      and no other word. */
  lemma OpcodeRecognised(w: string, op: Opcode)
    ensures TokenizeOpcode(w) == Some(op) <==> CaseVariants(w, OpcodeName(op))
  {
    hide Folds, TokenizeOpcode3;
    if |w| == 3 {
      OpcodeRecognised3(w, op);
    } else if 2 <= |w| <= 5 {
      LettersFold(w[0]);
      LettersFold(w[1]);
      if |w| > 3 { LettersFold(w[2]); LettersFold(w[3]); }
      if |w| > 4 { LettersFold(w[4]); }
    }
  }

  lemma OpcodeRecognised3(w: string, op: Opcode)
    requires |w| == 3
    ensures TokenizeOpcode3(w) == Some(op) <==> CaseVariants(w, OpcodeName(op))
  {
    hide Folds;
    LettersFold(w[0]);
    LettersFold(w[1]);
    LettersFold(w[2]);
  }

  lemma RegRecognised(w: string, r: Reg)
    ensures TokenizeReg(w) == Some(r) <==> CaseVariants(w, RegName(r))
  {
    hide Folds;
    if |w| == 3 {
      LettersFold(w[0]);
      LettersFold(w[1]);
    }
  }
}
