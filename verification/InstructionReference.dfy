/** The instruction set written out in numbers: for each instruction the words
    that encode it, and what one cycle does on such a word, in terms of bytes,
    register values and bit positions only. */
module InstructionReference {
  import opened Isa
  import opened Bits
  import opened Machine
  import opened WordFormat
  import opened Laws

  // ---- words ----

  /** Each opcode owns one range of words. */
  lemma OpcodeRanges(w: Word)
    ensures OpcodeOf(w) == MOV <==> 0x0000 <= w < 0x1000
    ensures OpcodeOf(w) == LOAD <==> 0x1000 <= w < 0x2000
    ensures OpcodeOf(w) == STORE <==> 0x2000 <= w < 0x3000
    ensures OpcodeOf(w) == ADD <==> 0x3000 <= w < 0x4000
    ensures OpcodeOf(w) == SUB <==> 0x4000 <= w < 0x5000
    ensures OpcodeOf(w) == MUL <==> 0x5000 <= w < 0x6000
    ensures OpcodeOf(w) == DIV <==> 0x6000 <= w < 0x7000
    ensures OpcodeOf(w) == MOD <==> 0x7000 <= w < 0x8000
    ensures OpcodeOf(w) == SHL <==> 0x8000 <= w < 0x9000
    ensures OpcodeOf(w) == SHR <==> 0x9000 <= w < 0xA000
    ensures OpcodeOf(w) == CMP <==> 0xA000 <= w < 0xB000
    ensures OpcodeOf(w) == JMP <==> 0xB000 <= w < 0xC000
    ensures OpcodeOf(w) == JZ <==> 0xC000 <= w < 0xD000
    ensures OpcodeOf(w) == JNZ <==> 0xD000 <= w < 0xE000
    ensures OpcodeOf(w) == CALL <==> 0xE000 <= w < 0xF000
    ensures OpcodeOf(w) == RET <==> 0xF000 <= w < 0x10000
  {
  }

  /** The machine runs, and the two bytes at RIP are this word. */
  ghost predicate Fetches(s: State, w: int) {
    && !s.halt && s.rip <= 0x7FFD
    && var low: int, high: int := s.mem[s.rip], s.mem[s.rip + 1]; low + 0x100 * high == w
  }

  /** The cycle that cannot fetch changes nothing. */
  lemma NoFetch(s: State)
    requires s.halt || s.rip >= 0x7FFE
    ensures Cycle(s) == s && Stopped(s)
  {
  }

  lemma WordFields(w: Word, base: nat, d: Reg, m: nat, x: Byte)
    requires m < 2 && base < 16 && w == 0x1000 * base + 0x200 * d + 0x100 * m + x
    ensures RegOf(w) == d && ModeOf(w) == (if m == 0 then ImmOrAddr else Register)
    ensures OperandOf(w) == x && w % 8 == x % 8 && OpcodeOf(w) == OpcodeAt(base)
  {
    hide OpcodeAt;
    DivUnique(w, 0x1000, base, 0x200 * d + 0x100 * m + x);
    var q := w / 0x100;
    DivUnique(w, 0x100, 16 * base + 2 * d + m, x);
    DivUnique(w, 0x200, 8 * base + d, 0x100 * m + x);
    OperandLow3(w);
  }

  /** The second operand: the byte itself, or the register its low bits name. */
  function Second(s: State, m: nat, x: Byte): Word {
    if m == 0 then x else s.rv[x % 8]
  }

  lemma FetchedSource(s: State, base: nat, d: Reg, m: nat, x: Byte)
    requires m < 2 && base < 16 && Fetches(s, 0x1000 * base + 0x200 * d + 0x100 * m + x)
    ensures !Stopped(s) && Fetch(s) == 0x1000 * base + 0x200 * d + 0x100 * m + x
    ensures RegOf(Fetch(s)) == d && Source(s.(rip := s.rip + 2), Fetch(s)) == Second(s, m, x)
    ensures OpcodeOf(Fetch(s)) == OpcodeAt(base)
  {
    hide OpcodeOf, OpcodeAt, RegOf, ModeOf, OperandOf;
    WordFields(Fetch(s), base, d, m, x);
  }

  // ---- flags ----

  /** Flags g after flags f: bit 0 zero, bit 1 negative, bit 2 carry, bit 3
      overflow, the rest as before. */
  ghost predicate FlagsBecome(f: Word, g: Word, z: bool, n: bool, c: bool, o: bool) {
    && g / 16 == f / 16
    && (g % 2 == 1) == z && (g / 2 % 2 == 1) == n && (g / 4 % 2 == 1) == c && (g / 8 % 2 == 1) == o
  }

  lemma FourFlags(f: Word, z: bool, n: bool, c: bool, o: bool)
    ensures FlagsBecome(f, SetZNCO(f, z, n, c, o), z, n, c, o)
  {
    FlagsOf(f, z, n, c, o);
    var low := B(z) + 2 * B(n) + 4 * B(c) + 8 * B(o);
    DivUnique(SetZNCO(f, z, n, c, o), 16, f / 16, low);
  }

  /** SHR leaves the overflow flag and what is above it. */
  lemma ThreeFlags(f: Word, z: bool, n: bool, c: bool)
    ensures FlagsBecome(f, SetZNC(f, z, n, c), z, n, c, f / 8 % 2 == 1)
  {
    var h, low := f / 8, B(z) + 2 * B(n) + 4 * B(c);
    assert f == 8 * h + f % 8;
    assert SetZNC(f, z, n, c) == SetZNCO(f, z, n, c, h % 2 == 1) by {
      DivUnique(f, 16, h / 2, 8 * (h % 2) + f % 8);
    }
    FourFlags(f, z, n, c, h % 2 == 1);
  }

  /** DIV and MOD leave carry and overflow. */
  lemma TwoFlags(f: Word, z: bool, n: bool)
    ensures FlagsBecome(f, SetZN(f, z, n), z, n, f / 4 % 2 == 1, f / 8 % 2 == 1)
  {
    var h := f / 4;
    assert f == 4 * h + f % 4;
    assert SetZN(f, z, n) == SetZNC(f, z, n, h % 2 == 1) by {
      DivUnique(f, 8, h / 2, 4 * (h % 2) + f % 4);
    }
    ThreeFlags(f, z, n, h % 2 == 1);
  }

  /** Only RIP, the flags and one register have changed. */
  ghost predicate Computes(s: State, t: State, d: Reg, r: Word) {
    s.rip <= 0x7FFD && t == s.(rip := s.rip + 2, rv := s.rv[d := r], flags := t.flags)
  }

  // ---- data ----

  lemma MovCycle(s: State, d: Reg, m: nat, x: Byte)
    requires m < 2 && Fetches(s, 0x0000 + 0x200 * d + 0x100 * m + x)
    ensures Cycle(s) == s.(rip := s.rip + 2, rv := s.rv[d := Second(s, m, x)])
  {
    hide OpcodeOf, RegOf, Source;
    FetchedSource(s, 0, d, m, x);
  }

  /** LOAD halts at odd addresses (0xFFFF is one) and reads two bytes elsewhere,
      also on the stack and in the program. */
  lemma LoadCycle(s: State, d: Reg, m: nat, x: Byte)
    requires m < 2 && Fetches(s, 0x1000 + 0x200 * d + 0x100 * m + x)
    ensures var a := Second(s, m, x);
            Cycle(s) == if a % 2 == 1 then s.(rip := s.rip + 2, halt := true)
                        else s.(rip := s.rip + 2, rv := s.rv[d := WordOf(s.mem[a], s.mem[a + 1])])
  {
    hide OpcodeOf, RegOf, Source;
    FetchedSource(s, 1, d, m, x);
  }

  function WordOf(low: Byte, high: Byte): Word { (low as int) + 0x100 * (high as int) }

  /** Only the two bytes at a have changed, to the word v, low byte first. */
  ghost predicate WordStored(m: Bytes, n: Bytes, a: Word, v: Word) {
    && a < 0xFFFF
    && n[a] == v % 0x100 && n[a + 1] == v / 0x100
    && forall b: Word :: b != a && b != a + 1 ==> n[b] == m[b]
  }

  /** STORE halts at odd addresses and writes two bytes elsewhere, also on the
      stack and in the program. */
  lemma StoreCycle(s: State, d: Reg, m: nat, x: Byte)
    requires m < 2 && Fetches(s, 0x2000 + 0x200 * d + 0x100 * m + x)
    ensures var a, t := Second(s, m, x), Cycle(s);
            if a % 2 == 1 then t == s.(rip := s.rip + 2, halt := true)
            else t == s.(rip := s.rip + 2, mem := t.mem) && WordStored(s.mem, t.mem, a, s.rv[d])
  {
    hide OpcodeOf, RegOf, Source;
    FetchedSource(s, 2, d, m, x);
  }

  // ---- arithmetic ----

  lemma AluStep(s: State, base: nat, op: Opcode, d: Reg, m: nat, x: Byte)
    requires m < 2 && base < 16 && OpcodeAt(base) == op && IsAlu(op)
    requires Fetches(s, 0x1000 * base + 0x200 * d + 0x100 * m + x)
    ensures s.rip <= 0x7FFD
    ensures Cycle(s) == match Alu(op, s.rv[d], Second(s, m, x), s.flags)
                        case DivisionByZero => s.(rip := s.rip + 2, halt := true)
                        case Outcome(v, f) =>
                          s.(rip := s.rip + 2, flags := f, rv := if op == CMP then s.rv else s.rv[d := v])
  {
    hide OpcodeOf, OpcodeAt, RegOf, Source, Alu, Execute, ReadWord;
    FetchedSource(s, base, d, m, x);
    ExecuteAlu(s.(rip := s.rip + 2), Fetch(s));
  }

  lemma ExecuteAlu(s: State, w: Word)
    requires IsAlu(OpcodeOf(w))
    ensures Execute(s, w) == ExecAlu(s, w)
  {
    hide OpcodeOf, ExecAlu;
  }

  lemma AddCycle(s: State, d: Reg, m: nat, x: Byte)
    requires m < 2 && Fetches(s, 0x3000 + 0x200 * d + 0x100 * m + x)
    ensures var a: int, b: int := s.rv[d], Second(s, m, x);
            var r := (a + b) % 0x10000;
            && Computes(s, Cycle(s), d, r)
            && FlagsBecome(s.flags, Cycle(s).flags, r == 0, r >= 0x8000, a + b >= 0x10000,
                           !(-0x8000 <= Signed(a) + Signed(b) <= 0x7FFF))
  {
    hide Cycle, Fetches, Second, SetZNCO;
    AluStep(s, 3, ADD, d, m, x);
    var a: int, b: int := s.rv[d], Second(s, m, x);
    var r := (a + b) % 0x10000;
    FourFlags(s.flags, r == 0, r >= 0x8000, a + b > 0xFFFF, !(-0x8000 <= Signed(a) + Signed(b) < 0x8000));
  }

  lemma DifferenceStep(a: Word, b: Word, f: Word)
    ensures var o := Difference(a, b, f);
            && o.Outcome? && o.value == ((a as int) - b) % 0x10000
            && FlagsBecome(f, o.flags, a == b, o.value >= 0x8000, a < b,
                           !(-0x8000 <= Signed(a) - Signed(b) <= 0x7FFF))
  {
    hide SetZNCO;
    FourFlags(f, a == b, Difference(a, b, f).value >= 0x8000, a < b,
              !(-0x8000 <= Signed(a) - Signed(b) < 0x8000));
  }

  lemma SubCycle(s: State, d: Reg, m: nat, x: Byte)
    requires m < 2 && Fetches(s, 0x4000 + 0x200 * d + 0x100 * m + x)
    ensures var a: int, b: int := s.rv[d], Second(s, m, x);
            var r := (a - b) % 0x10000;
            && Computes(s, Cycle(s), d, r)
            && FlagsBecome(s.flags, Cycle(s).flags, a == b, r >= 0x8000, a < b,
                           !(-0x8000 <= Signed(a) - Signed(b) <= 0x7FFF))
  {
    hide Cycle, Fetches, Second, Difference, FlagsBecome;
    AluStep(s, 4, SUB, d, m, x);
    DifferenceStep(s.rv[d], Second(s, m, x), s.flags);
  }

  /** CMP sets the flags of SUB and no register. */
  lemma CmpCycle(s: State, d: Reg, m: nat, x: Byte)
    requires m < 2 && Fetches(s, 0xA000 + 0x200 * d + 0x100 * m + x)
    ensures var a: int, b: int := s.rv[d], Second(s, m, x);
            && Cycle(s) == s.(rip := s.rip + 2, flags := Cycle(s).flags)
            && FlagsBecome(s.flags, Cycle(s).flags, a == b, (a - b) % 0x10000 >= 0x8000, a < b,
                           !(-0x8000 <= Signed(a) - Signed(b) <= 0x7FFF))
  {
    hide Cycle, Fetches, Second, Difference, FlagsBecome;
    AluStep(s, 10, CMP, d, m, x);
    DifferenceStep(s.rv[d], Second(s, m, x), s.flags);
  }

  /** MUL keeps the low 16 bits; carry and overflow both say the rest was not
      zero. */
  lemma MulCycle(s: State, d: Reg, m: nat, x: Byte)
    requires m < 2 && Fetches(s, 0x5000 + 0x200 * d + 0x100 * m + x)
    ensures var product := (s.rv[d] as int) * (Second(s, m, x) as int);
            var r := product % 0x10000;
            && Computes(s, Cycle(s), d, r)
            && FlagsBecome(s.flags, Cycle(s).flags, r == 0, r >= 0x8000, product >= 0x10000, product >= 0x10000)
  {
    hide Cycle, Fetches, Second, Truncated, FlagsBecome;
    AluStep(s, 5, MUL, d, m, x);
    TruncatedStep((s.rv[d] as int) * (Second(s, m, x) as int), s.flags);
  }

  lemma TruncatedStep(product: nat, f: Word)
    ensures var o, r := Truncated(product, f), product % 0x10000;
            && o.Outcome? && o.value == r
            && FlagsBecome(f, o.flags, r == 0, r >= 0x8000, product >= 0x10000, product >= 0x10000)
  {
    hide SetZNCO;
    FourFlags(f, product % 0x10000 == 0, product % 0x10000 >= 0x8000, product > 0xFFFF, product > 0xFFFF);
  }

  lemma DivisionStep(a: Word, b: Word, f: Word)
    ensures b == 0 ==> Alu(DIV, a, b, f) == DivisionByZero && Alu(MOD, a, b, f) == DivisionByZero
    ensures b > 0 ==> 0 <= a / b < 0x10000 && 0 <= a % b < 0x10000
    ensures b > 0 ==> DividesTo(Alu(DIV, a, b, f), f, a / b) && DividesTo(Alu(MOD, a, b, f), f, a % b)
  {
    hide SetZN, FlagsBecome;
    if b > 0 {
      BitTricks.DivisionOutcome(a, b, f);
      TwoFlags(f, a / b == 0, Negative(a / b));
      TwoFlags(f, a % b == 0, Negative(a % b));
    }
  }

  /** This value, with carry and overflow as they were. */
  ghost predicate DividesTo(o: Outcome, f: Word, r: Word) {
    && o.Outcome? && o.value == r
    && FlagsBecome(f, o.flags, r == 0, r >= 0x8000, f / 4 % 2 == 1, f / 8 % 2 == 1)
  }

  /** DIV halts on a zero divisor and otherwise keeps carry and overflow. */
  lemma DivCycle(s: State, d: Reg, m: nat, x: Byte)
    requires m < 2 && Fetches(s, 0x6000 + 0x200 * d + 0x100 * m + x)
    ensures var a, b, t := s.rv[d], Second(s, m, x), Cycle(s);
            if b == 0 then t == s.(rip := s.rip + 2, halt := true)
            else
              && 0 <= a / b < 0x10000 && Computes(s, t, d, a / b)
              && FlagsBecome(s.flags, t.flags, a / b == 0, a / b >= 0x8000,
                             s.flags / 4 % 2 == 1, s.flags / 8 % 2 == 1)
  {
    hide Cycle, Fetches, Second, Alu, FlagsBecome;
    AluStep(s, 6, DIV, d, m, x);
    DivisionStep(s.rv[d], Second(s, m, x), s.flags);
  }

  /** MOD likewise. */
  lemma ModCycle(s: State, d: Reg, m: nat, x: Byte)
    requires m < 2 && Fetches(s, 0x7000 + 0x200 * d + 0x100 * m + x)
    ensures var a, b, t := s.rv[d], Second(s, m, x), Cycle(s);
            if b == 0 then t == s.(rip := s.rip + 2, halt := true)
            else
              && 0 <= a % b < 0x10000 && Computes(s, t, d, a % b)
              && FlagsBecome(s.flags, t.flags, a % b == 0, a % b >= 0x8000,
                             s.flags / 4 % 2 == 1, s.flags / 8 % 2 == 1)
  {
    hide Cycle, Fetches, Second, Alu, FlagsBecome;
    AluStep(s, 7, MOD, d, m, x);
    DivisionStep(s.rv[d], Second(s, m, x), s.flags);
  }

  /** SHL takes the count modulo 16.  By 0 nothing but RIP changes; by k the
      carry is bit 16-k of the operand, and only a shift by 1 can overflow. */
  lemma ShlCycle(s: State, d: Reg, m: nat, x: Byte)
    requires m < 2 && Fetches(s, 0x8000 + 0x200 * d + 0x100 * m + x)
    ensures var a, k, t := s.rv[d], Second(s, m, x) % 16, Cycle(s);
            if k == 0 then t == s.(rip := s.rip + 2)
            else
              var r := a * Pow2(k) % 0x10000;
              && Computes(s, t, d, r)
              && FlagsBecome(s.flags, t.flags, r == 0, r >= 0x8000, Bit(a, 16 - k),
                             k == 1 && Bit(a, 15) != Bit(a, 14))
  {
    hide Cycle, Fetches, Second, ShiftLeft, FlagsBecome, Bit, Pow2;
    AluStep(s, 8, SHL, d, m, x);
    var a, k := s.rv[d], Second(s, m, x) % 16;
    ShiftLeftStep(a, k, s.flags);
    assert s.rv[d := a] == s.rv;
  }

  lemma ShiftLeftStep(a: Word, k: nat, f: Word)
    requires k < 16
    ensures k == 0 ==> ShiftLeft(a, k, f) == Outcome(a, f)
    ensures k > 0 ==>
              var o, r := ShiftLeft(a, k, f), a * Pow2(k) % 0x10000;
              && o.Outcome? && o.value == r
              && FlagsBecome(f, o.flags, r == 0, r >= 0x8000, Bit(a, 16 - k), k == 1 && Bit(a, 15) != Bit(a, 14))
  {
    hide Pow2, Bit, SetZNCO, FlagsBecome;
    if k > 0 {
      ShiftedOut(a, k);
      var p := a * Pow2(k);
      var r := p % 0x10000;
      FourFlags(f, r == 0, r >= 0x8000, p / 0x10000 % 2 == 1, k == 1 && Negative(a) != Negative(r));
    }
  }

  /** The bits of the operand that end up just past the top and at the top. */
  lemma ShiftedOut(a: Word, k: nat)
    requires k < 16
    ensures var p := a * Pow2(k);
            && (p / 0x10000 % 2 == 1 <==> Bit(a, 16 - k))
            && (p % 0x10000 >= 0x8000 <==> Bit(a, 15 - k))
            && (a >= 0x8000 <==> Bit(a, 15))
  {
    hide Pow2, Bit;
    Pow2Values();
    BitOfProduct(a, k, 16);
    BitOfProduct(a, k, 15);
    TopBitOfRemainder(a * Pow2(k));
    BitIsQuotient(a, 15);
  }

  /** SHR takes the count modulo 16, sets the flags even for 0, and leaves the
      overflow flag; the carry is bit k-1 of the operand. */
  lemma ShrCycle(s: State, d: Reg, m: nat, x: Byte)
    requires m < 2 && Fetches(s, 0x9000 + 0x200 * d + 0x100 * m + x)
    ensures var a, k, t := s.rv[d], Second(s, m, x) % 16, Cycle(s);
            && 0 <= a / Pow2(k) < 0x10000
            && Computes(s, t, d, a / Pow2(k))
            && FlagsBecome(s.flags, t.flags, a / Pow2(k) == 0, a / Pow2(k) >= 0x8000,
                           k > 0 && Bit(a, k - 1), s.flags / 8 % 2 == 1)
  {
    hide Cycle, Fetches, Second, ShiftRight, FlagsBecome, Bit, Pow2;
    AluStep(s, 9, SHR, d, m, x);
    ShiftRightStep(s.rv[d], Second(s, m, x) % 16, s.flags);
  }

  lemma ShiftRightStep(a: Word, k: nat, f: Word)
    requires k < 16
    ensures 0 <= a / Pow2(k) < 0x10000
    ensures var o, r := ShiftRight(a, k, f), a / Pow2(k);
            && o.Outcome? && o.value == r
            && FlagsBecome(f, o.flags, r == 0, r >= 0x8000, k > 0 && Bit(a, k - 1), f / 8 % 2 == 1)
  {
    hide Pow2, Bit, Shr, SetZNC, FlagsBecome;
    ShrIsQuotient(a, k);
    if k > 0 {
      ShrIsQuotient(a, k - 1);
      BitIsQuotient(a, k - 1);
    }
    ThreeFlags(f, Shr(a, k) == 0, Shr(a, k) >= 0x8000, k > 0 && Shr(a, k - 1) % 2 == 1);
  }

  // ---- control flow ----

  /** The target of a branch word base * 0x1000 + 0x800 * m + x, relative to the
      next instruction or in a register. */
  function TargetOf(s: State, m: nat, x: nat): Word
    requires s.rip <= 0x7FFD
  {
    if m == 0 then (s.rip + 2 + (if x < 0x400 then x else x - 0x800)) % 0x10000 else s.rv[x % 8]
  }

  lemma FetchedTarget(s: State, base: nat, m: nat, x: nat)
    requires m < 2 && base < 16 && x < 0x800 && Fetches(s, 0x1000 * base + 0x800 * m + x)
    ensures !Stopped(s) && Fetch(s) == 0x1000 * base + 0x800 * m + x
    ensures BranchTarget(s.(rip := s.rip + 2), Fetch(s)) == TargetOf(s, m, x)
    ensures OpcodeOf(Fetch(s)) == OpcodeAt(base)
  {
    hide OpcodeAt;
    TargetFields(Fetch(s), base, m, x);
  }

  lemma TargetFields(w: Word, base: nat, m: nat, x: nat)
    requires m < 2 && base < 16 && x < 0x800 && w == 0x1000 * base + 0x800 * m + x
    ensures w / 0x1000 == base && w / 0x800 % 2 == m && w % 0x800 == x && w % 8 == x % 8
  {
    DivUnique(w, 0x1000, base, 0x800 * m + x);
    DivUnique(w, 0x800, 2 * base + m, x);
    DivUnique(w, 8, 0x200 * base + 0x100 * m + x / 8, x % 8);
  }

  /** A jump taken: to an even address, or the machine halts. */
  function Jumped(s: State, a: Word): State
    requires s.rip <= 0x7FFD
  {
    if a % 2 == 1 then s.(rip := s.rip + 2, halt := true) else s.(rip := a)
  }

  lemma JmpCycle(s: State, m: nat, x: nat)
    requires m < 2 && x < 0x800 && Fetches(s, 0xB000 + 0x800 * m + x)
    ensures Cycle(s) == Jumped(s, TargetOf(s, m, x))
  {
    hide OpcodeOf, BranchTarget;
    FetchedTarget(s, 11, m, x);
  }

  lemma JzCycle(s: State, m: nat, x: nat)
    requires m < 2 && x < 0x800 && Fetches(s, 0xC000 + 0x800 * m + x)
    ensures Cycle(s) == if s.flags % 2 == 1 then Jumped(s, TargetOf(s, m, x)) else s.(rip := s.rip + 2)
  {
    hide OpcodeOf, BranchTarget;
    FetchedTarget(s, 12, m, x);
  }

  lemma JnzCycle(s: State, m: nat, x: nat)
    requires m < 2 && x < 0x800 && Fetches(s, 0xD000 + 0x800 * m + x)
    ensures Cycle(s) == if s.flags % 2 == 1 then s.(rip := s.rip + 2) else Jumped(s, TargetOf(s, m, x))
  {
    hide OpcodeOf, BranchTarget;
    FetchedTarget(s, 13, m, x);
  }

  /** CALL halts on an odd target or below 0xF002; otherwise the address of the
      next instruction goes to the two bytes below RSP. */
  lemma CallCycle(s: State, m: nat, x: nat)
    requires m < 2 && x < 0x800 && Fetches(s, 0xE000 + 0x800 * m + x)
    ensures var a, t := TargetOf(s, m, x), Cycle(s);
            if a % 2 == 1 || s.rsp < 0xF002 then t == s.(rip := s.rip + 2, halt := true)
            else
              && t == s.(rip := a, rsp := s.rsp - 2, mem := t.mem)
              && WordStored(s.mem, t.mem, s.rsp - 2, s.rip + 2)
  {
    hide OpcodeOf, BranchTarget;
    FetchedTarget(s, 14, m, x);
  }

  /** RET halts at 0xFEFF and above; otherwise it pops, and halts if what it
      popped is odd. */
  lemma RetCycle(s: State, x: nat)
    requires x < 0x1000 && Fetches(s, 0xF000 + x)
    ensures Cycle(s) == if s.rsp >= 0xFEFF then s.(rip := s.rip + 2, halt := true)
                        else
                          var a := WordOf(s.mem[s.rsp], s.mem[s.rsp + 1]);
                          Jumped(s, a).(rsp := s.rsp + 2)
  {
    hide OpcodeOf;
    assert Fetch(s) == 0xF000 + x;
    OpcodeRanges(Fetch(s));
  }

  /** A new machine: all zero but RSP. */
  lemma NewMachineState()
    ensures var s := Initial();
            && s.rip == 0 && s.rsp == 0xFEFF && s.rsb == 0 && s.flags == 0 && !s.halt
            && (forall r: Reg :: s.rv[r] == 0) && (forall a: Word :: s.mem[a] == 0) && |s.mem| == 0x10000
  {
  }
}
