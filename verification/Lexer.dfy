/** The scanner (rocketasm/lexer.c). */
module Lexing {
  import opened Isa
  import opened Names

  datatype Token =
    | INVALID
    | OPCODE(opcode: Opcode)
    | REG(reg: Reg)
    | IDENT(name: string)
    | NUMBER(number: Int32)
    | COMMA | COLON | LBRACKET | RBRACKET | NEWLINE | EOF

  // ---- character classes (ASCII) ----

  /** `isspace`, except the newline, which is a token. */
  predicate IsBlank(c: char) { c == ' ' || (9 <= c as int <= 13 && c != '\n') }

  predicate IsDigit(c: char) { '0' <= c <= '9' }

  predicate IsAlpha(c: char) { 'a' <= c <= 'z' || 'A' <= c <= 'Z' }

  predicate IsWordStart(c: char) { IsAlpha(c) || c == '_' }

  predicate IsWordChar(c: char) { IsAlpha(c) || IsDigit(c) || c == '_' }

  // ---- strtol with base 0, on text that starts with a digit ----

  /** The value of a digit in bases up to 16, or 99. */
  function DigitValue(c: char): nat {
    if IsDigit(c) then c as int - '0' as int
    else if 'a' <= c <= 'f' then c as int - 'a' as int + 10
    else if 'A' <= c <= 'F' then c as int - 'A' as int + 10
    else 99
  }

  /** How many leading characters are digits of the base. */
  function DigitSpan(t: string, base: nat): (n: nat)
    ensures n <= |t|
  {
    if t == "" || DigitValue(t[0]) >= base then 0 else 1 + DigitSpan(t[1..], base)
  }

  /** The number that digits spell. */
  function NumberOf(digits: string, base: nat): nat {
    if digits == "" then 0
    else NumberOf(digits[..|digits| - 1], base) * base + DigitValue(digits[|digits| - 1])
  }

  /** Value and length: hexadecimal after 0x, octal after 0, else decimal. */
  function Strtol(t: string): (r: (nat, nat))
    requires t != "" && IsDigit(t[0])
    ensures 0 < r.1 <= |t|
  {
    if |t| >= 3 && t[0] == '0' && (t[1] == 'x' || t[1] == 'X') && DigitValue(t[2]) < 16 then
      var n := DigitSpan(t[2..], 16);
      (NumberOf(t[2..2 + n], 16), 2 + n)
    else if t[0] == '0' then
      var n := DigitSpan(t, 8);
      (NumberOf(t[..n], 8), n)
    else
      var n := DigitSpan(t, 10);
      (NumberOf(t[..n], 10), n)
  }

  // ---- what a scan finds ----

  function CommentLength(t: string): (n: nat)
    ensures n <= |t|
  {
    if t == "" || t[0] == '\n' then 0 else 1 + CommentLength(t[1..])
  }

  /** Blanks and comments before the next token. */
  function Skip(t: string): (n: nat)
    ensures n <= |t|
    decreases |t|
  {
    if t == "" then 0
    else if IsBlank(t[0]) then 1 + Skip(t[1..])
    else if t[0] == ';' then
      var n := CommentLength(t);
      n + Skip(t[n..])
    else 0
  }

  function WordSpan(t: string): (n: nat)
    ensures n <= |t|
  {
    if t == "" || !IsWordChar(t[0]) then 0 else 1 + WordSpan(t[1..])
  }

  function WordToken(w: string): Token {
    match TokenizeOpcode(w)
    case Some(op) => OPCODE(op)
    case None =>
      match TokenizeReg(w)
      case Some(r) => REG(r)
      case None => IDENT(w)
  }

  /** The token at the start of a text, and its length. */
  function Scan(t: string): (r: (Token, nat))
    requires t != ""
    ensures 0 < r.1 <= |t| && r.0 != EOF
  {
    var ch := t[0];
    if ch == ',' then (COMMA, 1)
    else if ch == ':' then (COLON, 1)
    else if ch == '[' then (LBRACKET, 1)
    else if ch == ']' then (RBRACKET, 1)
    else if ch == '\n' then (NEWLINE, 1)
    else if IsWordStart(ch) then
      var n := WordSpan(t);
      (WordToken(t[..n]), n)
    else if IsDigit(ch) then
      var (value, n) := Strtol(t);
      (if value > 0x7FFF_FFFF then INVALID else NUMBER(value), n)
    else (INVALID, 1)
  }

  /** The next token of a text, where its lexeme starts, and where it ends. */
  datatype Lexed = Lexed(token: Token, start: nat, end: nat)

  function Lex(t: string): (l: Lexed)
    ensures l.start <= l.end <= |t|
    ensures l.token == EOF <==> l.start == |t|
    ensures l.token != EOF ==> l.start < l.end
  {
    var k := Skip(t);
    if k == |t| then Lexed(EOF, k, k)
    else
      var (token, n) := Scan(t[k..]);
      Lexed(token, k, k + n)
  }

  /** All tokens before the end of the text. */
  function Tokens(t: string): seq<Token>
    decreases |t|
  {
    var l := Lex(t);
    if l.token == EOF then [] else [l.token] + Tokens(t[l.end..])
  }

  /** One step of the skip, by position. */
  lemma SkipFrom(src: string, pos: nat)
    requires pos <= |src|
    ensures var t := src[pos..];
            if pos == |src| then Skip(t) == 0
            else if IsBlank(src[pos]) then Skip(t) == 1 + Skip(src[pos + 1..])
            else if src[pos] == ';' then
              CommentLength(t) > 0 && Skip(t) == CommentLength(t) + Skip(src[pos + CommentLength(t)..])
            else Skip(t) == 0
  {
    var t := src[pos..];
    if pos < |src| {
      assert t[1..] == src[pos + 1..];
      assert t[CommentLength(t)..] == src[pos + CommentLength(t)..];
    }
  }

  // ---- the lexer object ----

  class Lexer {
    const src: string
    var pos: nat

    ghost predicate Valid()
      reads this
    {
      pos <= |src|
    }

    constructor (src: string)
      ensures Valid() && this.src == src && pos == 0
    {
      this.src := src;
      pos := 0;
    }

    /** One token.  The position moves past it, and past the end only of blanks
        and comments when the token is EOF. */
    method Tokenize() returns (token: Token)
      requires Valid()
      modifies this`pos
      ensures Valid()
      ensures token == Lex(src[old(pos)..]).token
      ensures pos == old(pos) + Lex(src[old(pos)..]).end
    {
      hide Scan, Skip;
      ghost var rest := src[pos..];
      SkipGap();
      if pos >= |src| {
        return EOF;
      }
      assert rest[pos - old(pos)..] == src[pos..];
      token := ScanHere();
    }

    /** The part of the scan before a token: blanks and comments. */
    method SkipGap()
      requires Valid()
      modifies this`pos
      ensures Valid() && pos == old(pos) + Skip(src[old(pos)..])
    {
      hide Skip, CommentLength;
      while true
        invariant old(pos) <= pos <= |src|
        invariant Skip(src[old(pos)..]) == pos - old(pos) + Skip(src[pos..])
        decreases |src| - pos
      {
        while pos < |src| && IsBlank(src[pos])
          invariant old(pos) <= pos <= |src|
          invariant Skip(src[old(pos)..]) == pos - old(pos) + Skip(src[pos..])
        {
          SkipFrom(src, pos);
          pos := pos + 1;
        }
        SkipFrom(src, pos);
        if pos >= |src| {
          return;
        }
        if src[pos] == ';' {
          SkipComment();
          continue;
        }
        break;
      }
    }

    method SkipComment()
      requires Valid()
      modifies this`pos
      ensures Valid() && pos == old(pos) + CommentLength(src[old(pos)..])
    {
      while pos < |src| && src[pos] != '\n'
        invariant old(pos) <= pos <= |src|
        invariant CommentLength(src[old(pos)..]) == pos - old(pos) + CommentLength(src[pos..])
      {
        assert src[pos..][1..] == src[pos + 1..];
        pos := pos + 1;
      }
    }

    /** The part of the scan after blanks and comments. */
    method ScanHere() returns (token: Token)
      requires Valid() && pos < |src|
      modifies this`pos
      ensures Valid()
      ensures (token, pos - old(pos)) == Scan(src[old(pos)..])
    {
      var ch := src[pos];
      if ch == ',' { pos := pos + 1; return COMMA; }
      if ch == ':' { pos := pos + 1; return COLON; }
      if ch == '[' { pos := pos + 1; return LBRACKET; }
      if ch == ']' { pos := pos + 1; return RBRACKET; }
      if ch == '\n' { pos := pos + 1; return NEWLINE; }

      if IsWordStart(ch) {
        var start := pos;
        ghost var text := src[start..];
        while pos < |src| && IsWordChar(src[pos])
          invariant start <= pos <= |src|
          invariant WordSpan(text) == pos - start + WordSpan(src[pos..])
        {
          assert src[pos..][1..] == src[pos + 1..];
          pos := pos + 1;
        }
        var word := src[start..pos];
        assert word == text[..pos - start];
        var opcode := TokenizeOpcode(word);
        if opcode.Some? { return OPCODE(opcode.value); }
        var reg := TokenizeReg(word);
        if reg.Some? { return REG(reg.value); }
        return IDENT(word);
      }

      if IsDigit(ch) {
        var (value, size) := Strtol(src[pos..]);
        pos := pos + size;
        if value > 0x7FFF_FFFF {
          return INVALID;
        }
        return NUMBER(value);
      }

      pos := pos + 1;
      return INVALID;
    }
  }

  // ---- nothing is lost ----

  /** Blanks, then nothing or a comment that reaches the end of its line. */
  ghost predicate IsGap(gap: string, rest: string) {
    exists k :: 0 <= k <= |gap| && IsGapAt(gap, rest, k)
  }

  ghost predicate IsGapAt(gap: string, rest: string, k: nat)
    requires k <= |gap|
  {
    && (forall i :: 0 <= i < k ==> IsBlank(gap[i]))
    && (k < |gap| ==>
          && gap[k] == ';' && (forall i :: k <= i < |gap| ==> gap[i] != '\n')
          && (rest == "" || rest[0] == '\n'))
  }

  lemma {:induction false} CommentToLineEnd(t: string)
    ensures var n := CommentLength(t);
            && (forall i :: 0 <= i < n ==> t[i] != '\n')
            && (n == |t| || t[n] == '\n')
  {
    if t != "" && t[0] != '\n' {
      CommentToLineEnd(t[1..]);
      var n := CommentLength(t);
      forall i | 0 <= i < n
        ensures t[i] != '\n'
      {
        if i > 0 { assert t[i] == t[1..][i - 1]; }
      }
    }
  }

  /** What is skipped is a gap, and a token starts right after it. */
  lemma {:induction false} SkipIsGap(t: string)
    ensures IsGap(t[..Skip(t)], t[Skip(t)..])
    ensures Skip(t) < |t| ==> !IsBlank(t[Skip(t)]) && t[Skip(t)] != ';'
    decreases |t|
  {
    var n := Skip(t);
    if t == "" {
      assert IsGapAt(t[..n], t[n..], 0);
    } else if IsBlank(t[0]) {
      SkipIsGap(t[1..]);
      var gap := t[1..][..n - 1];
      var k :| 0 <= k <= |gap| && IsGapAt(gap, t[1..][n - 1..], k);
      assert t[..n] == [t[0]] + gap && t[1..][n - 1..] == t[n..];
      assert IsGapAt(t[..n], t[n..], k + 1);
    } else if t[0] == ';' {
      CommentToLineEnd(t);
      var c := CommentLength(t);
      assert t[c..] == "" || Skip(t[c..]) == 0;
      assert t[..n] == t[..c] && t[n..] == t[c..];
      assert IsGapAt(t[..n], t[n..], 0);
    } else {
      assert IsGapAt(t[..n], t[n..], 0);
    }
  }

  datatype Piece = Piece(gap: string, lexeme: string, token: Token)

  /** A text cut into gaps and lexemes, one piece per token. */
  function Pieces(t: string): seq<Piece>
    decreases |t|
  {
    var l := Lex(t);
    if l.token == EOF then []
    else [Piece(t[..l.start], t[l.start..l.end], l.token)] + Pieces(t[l.end..])
  }

  function Join(pieces: seq<Piece>): string {
    if pieces == [] then "" else pieces[0].gap + pieces[0].lexeme + Join(pieces[1..])
  }

  /** What is left after the last token. */
  function Tail(t: string): string
    decreases |t|
  {
    var l := Lex(t);
    if l.token == EOF then t else Tail(t[l.end..])
  }

  /** A gap does not depend on more than the first character after it. */
  lemma GapBefore(gap: string, rest: string, lexeme: string)
    requires IsGap(gap, rest) && rest != "" && lexeme != "" && rest[0] == lexeme[0]
    ensures IsGap(gap, lexeme)
  {
    var k :| 0 <= k <= |gap| && IsGapAt(gap, rest, k);
    assert IsGapAt(gap, lexeme, k);
  }

  lemma {:induction false} PiecesJoin(t: string)
    ensures Join(Pieces(t)) + Tail(t) == t
    decreases |t|
  {
    hide Lex;
    var l := Lex(t);
    if l.token != EOF {
      var rest := t[l.end..];
      PiecesJoin(rest);
      assert Pieces(t)[1..] == Pieces(rest);
      assert t == t[..l.start] + t[l.start..l.end] + rest;
    }
  }

  lemma {:induction false} PiecesAreTokens(t: string)
    ensures |Pieces(t)| == |Tokens(t)|
    ensures forall i :: 0 <= i < |Pieces(t)| ==> Pieces(t)[i].token == Tokens(t)[i]
    decreases |t|
  {
    hide Lex;
    var l := Lex(t);
    if l.token != EOF { PiecesAreTokens(t[l.end..]); }
  }

  /** A lexeme is not empty, follows a gap, and is all that its token depends
      on: scanned alone it gives the same token and is used up. */
  ghost predicate WellCut(p: Piece) {
    p.lexeme != "" && IsGap(p.gap, p.lexeme) && Scan(p.lexeme) == (p.token, |p.lexeme|)
  }

  lemma {:induction false} WordSpanOfPrefix(t: string, n: nat)
    requires WordSpan(t) <= n <= |t|
    ensures WordSpan(t[..n]) == WordSpan(t)
  {
    if t != "" && IsWordChar(t[0]) {
      assert t[..n][1..] == t[1..][..n - 1];
      WordSpanOfPrefix(t[1..], n - 1);
    }
  }

  lemma {:induction false} DigitSpanOfPrefix(t: string, base: nat, n: nat)
    requires DigitSpan(t, base) <= n <= |t|
    ensures DigitSpan(t[..n], base) == DigitSpan(t, base)
  {
    if t != "" && DigitValue(t[0]) < base {
      assert t[..n][1..] == t[1..][..n - 1];
      DigitSpanOfPrefix(t[1..], base, n - 1);
    }
  }

  lemma StrtolOfLexeme(t: string)
    requires t != "" && IsDigit(t[0])
    ensures Strtol(t[..Strtol(t).1]) == Strtol(t)
  {
    hide NumberOf;
    var n := Strtol(t).1;
    var w := t[..n];
    if |t| >= 3 && t[0] == '0' && (t[1] == 'x' || t[1] == 'X') && DigitValue(t[2]) < 16 {
      DigitSpanOfPrefix(t[2..], 16, n - 2);
      assert w[2..] == t[2..][..n - 2];
      assert w[2..n] == t[2..n];
    } else {
      var base := if t[0] == '0' then 8 else 10;
      DigitSpanOfPrefix(t, base, n);
      assert w[..n] == t[..n];
      if n >= 2 {
        assert t[1..][0] == t[1];
        assert DigitValue(t[1]) < base;
      }
    }
  }

  lemma ScanOfLexeme(t: string)
    requires t != ""
    ensures Scan(t[..Scan(t).1]) == Scan(t)
  {
    hide Strtol, WordToken;
    var n := Scan(t).1;
    assert t[..n][0] == t[0];
    if IsWordStart(t[0]) {
      WordSpanOfPrefix(t, n);
      assert t[..n][..n] == t[..n];
    } else if IsDigit(t[0]) {
      StrtolOfLexeme(t);
    }
  }

  lemma {:induction false} PiecesWellCut(t: string)
    ensures forall p :: p in Pieces(t) ==> WellCut(p)
    ensures IsGap(Tail(t), "")
    decreases |t|
  {
    hide Scan, Skip, IsGap;
    var l := Lex(t);
    SkipIsGap(t);
    if l.token == EOF {
      assert t[..l.start] == t && t[l.start..] == "";
    } else {
      PiecesWellCut(t[l.end..]);
      ScanOfLexeme(t[l.start..]);
      assert t[l.start..][..l.end - l.start] == t[l.start..l.end];
      GapBefore(t[..l.start], t[l.start..], t[l.start..l.end]);
    }
  }

  /** An identifier is never a mnemonic or a register name in any case. */
  lemma IdentIsNoKeyword(w: string, op: Opcode, r: Reg)
    requires WordToken(w).IDENT?
    ensures !CaseVariants(w, OpcodeName(op)) && !CaseVariants(w, RegName(r))
  {
    OpcodeRecognised(w, op);
    RegRecognised(w, r);
  }

  /** Every character of a text is in exactly one gap or lexeme, in order; gaps
      are blanks and comments, lexemes are not empty and determine their tokens,
      and there is one piece for each token. */
  lemma NothingLost(t: string)
    ensures Join(Pieces(t)) + Tail(t) == t
    ensures |Pieces(t)| == |Tokens(t)|
    ensures forall i :: 0 <= i < |Pieces(t)| ==> Pieces(t)[i].token == Tokens(t)[i]
    ensures forall p :: p in Pieces(t) ==> WellCut(p)
    ensures IsGap(Tail(t), "")
  {
    PiecesJoin(t);
    PiecesAreTokens(t);
    PiecesWellCut(t);
  }
}
