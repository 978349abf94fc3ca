/** Laws of the arithmetic: what the flags say, and programs whose result is an
    algebraic identity. */
module Laws {
  import opened Isa
  import opened Bits
  import opened BitTricks
  import opened Machine
  import opened WordFormat

  // ---- flags ----

  lemma FlagsOf(f: Word, z: bool, n: bool, c: bool, o: bool)
    ensures var g := SetZNCO(f, z, n, c, o);
            RZ(g) == z && RN(g) == n && RC(g) == c && RO(g) == o
  {
    var q := f / 16;
    var g := SetZNCO(f, z, n, c, o);
    assert g == 16 * q + B(z) + 2 * B(n) + 4 * B(c) + 8 * B(o);
    FlagBit(g, 1, 8 * q + B(n) + 2 * B(c) + 4 * B(o), z, 0);
    FlagBit(g, 2, 4 * q + B(c) + 2 * B(o), n, B(z));
    FlagBit(g, 4, 2 * q + B(o), c, B(z) + 2 * B(n));
    FlagBit(g, 8, q, o, B(z) + 2 * B(n) + 4 * B(c));
  }

  lemma FlagBit(g: nat, p: nat, high: nat, b: bool, low: nat)
    requires p > 0 && low < p && g == p * (2 * high + B(b)) + low
    ensures (g / p % 2 == 1) == b
  {
    DivUnique(g, p, 2 * high + B(b), low);
  }

  /** ADD: zero, sign, unsigned carry and signed overflow of the sum. */
  lemma AddFlags(dst: Word, src: Word, f: Word)
    ensures var o := Alu(ADD, dst, src, f);
            && o.Outcome?
            && o.value == (dst + src) % 0x10000
            && (RZ(o.flags) <==> o.value == 0)
            && (RN(o.flags) <==> Signed(o.value) < 0)
            && (RC(o.flags) <==> dst + src != o.value)
            && (RO(o.flags) <==> Signed(dst) + Signed(src) != Signed(o.value))
  {
    hide SetZNCO;
    var r := (dst + src) % 0x10000;
    FlagsOf(f, r == 0, Negative(r), dst + src > 0xFFFF, !(-0x8000 <= Signed(dst) + Signed(src) < 0x8000));
  }

  /** SUB and CMP: RZ is equality, RC is unsigned order, and RN differing from
      RO is signed order. */
  lemma DifferenceFlags(op: Opcode, dst: Word, src: Word, f: Word)
    requires op == SUB || op == CMP
    ensures var o := Alu(op, dst, src, f);
            && (o.value + src) % 0x10000 == dst
            && (RZ(o.flags) <==> dst == src)
            && (RC(o.flags) <==> dst < src)
            && (RN(o.flags) != RO(o.flags) <==> Signed(dst) < Signed(src))
  {
    hide SetZNCO;
    var r := (dst - src) % 0x10000;
    FlagsOf(f, dst == src, Negative(r), dst < src, !(-0x8000 <= Signed(dst) - Signed(src) < 0x8000));
  }

  /** MUL: both RC and RO say that the product was truncated. */
  lemma ProductFlags(product: nat, f: Word)
    ensures var o := Truncated(product, f);
            && (RC(o.flags) <==> product != o.value)
            && (RO(o.flags) <==> product != o.value)
            && (RZ(o.flags) <==> o.value == 0)
            && (RN(o.flags) <==> Signed(o.value) < 0)
  {
    hide SetZNCO;
    var r := product % 0x10000;
    FlagsOf(f, r == 0, Negative(r), product > 0xFFFF, product > 0xFFFF);
  }

  /** CMP followed by JZ or JNZ branches exactly on equality or inequality. */
  lemma CompareAndBranch(s: State, w: Word)
    requires !Stopped(s) && OpcodeOf(Fetch(s)) == CMP
    requires s.rip + 2 <= PROGRAM_END - 2
    requires w == ReadWord(s.mem, s.rip + 2) && (OpcodeOf(w) == JZ || OpcodeOf(w) == JNZ)
    ensures var after := Run(s, 1).(rip := s.rip + 4);
            var equal := s.rv[RegOf(Fetch(s))] == Source(s, Fetch(s));
            && after.rv == s.rv && after.mem == s.mem
            && Run(s, 2) == if equal == (OpcodeOf(w) == JZ) then ExecJmp(after, w) else after
  {
    hide OpcodeOf, ReadWord, RZ, BranchTarget, Alu;
    assert Run(s, 0) == s && Run(s, 1) == Cycle(s) && Run(s, 2) == Cycle(Run(s, 1));
    DifferenceFlags(CMP, s.rv[RegOf(Fetch(s))], Source(s, Fetch(s)), s.flags);
    CmpOutcome(s.rv[RegOf(Fetch(s))], Source(s, Fetch(s)), s.flags);
  }

  lemma CmpOutcome(dst: Word, src: Word, f: Word)
    ensures Alu(CMP, dst, src, f).Outcome?
  {
  }

  // ---- short programs ----

  /** What MOV or an ALU instruction leaves in its destination and the flags. */
  function Result(op: Opcode, dst: Word, src: Word, f: Word): Outcome
    requires op == MOV || IsAlu(op)
  {
    if op == MOV then Outcome(src, f) else Alu(op, dst, src, f)
  }

  function Operand(s: State, mode: Mode, operand: Byte): Word {
    if mode == ImmOrAddr then operand else s.rv[operand % 8]
  }

  /** One cycle of an instruction given by its encoded fields. */
  lemma StepOf(s: State, op: Opcode, reg: Reg, mode: Mode, operand: Byte)
    requires !Stopped(s) && (op == MOV || (IsAlu(op) && op != CMP))
    requires Fetch(s) == Encode(op, reg, mode, operand)
    requires Result(op, s.rv[reg], Operand(s, mode, operand), s.flags).Outcome?
    ensures var r := Result(op, s.rv[reg], Operand(s, mode, operand), s.flags);
            Cycle(s) == s.(rip := s.rip + 2, flags := r.flags, rv := s.rv[reg := r.value])
  {
    hide Encode, Alu, OpcodeOf, ModeOf, RegOf, ReadWord;
    EncodeLayout(op, reg, mode, operand);
    OperandLow3(Fetch(s));
  }

  /** The words of a short program are in memory from RIP on. */
  ghost predicate CodeAt(s: State, words: seq<nat>) {
    && s.rip + 2 * |words| <= PROGRAM_END
    && forall i :: 0 <= i < |words| ==> ReadWord(s.mem, s.rip + 2 * i) == words[i]
  }

  /** The run has come to word k of the program that starts where s is. */
  ghost predicate Reached(s: State, t: State, k: nat) {
    t.mem == s.mem && t.rip == s.rip + 2 * k && !t.halt
  }

  lemma FetchWord(s: State, words: seq<nat>, t: State, k: nat)
    requires CodeAt(s, words) && k < |words| && Reached(s, t, k)
    ensures !Stopped(t) && Fetch(t) == words[k]
  {
    hide ReadWord;
  }

  lemma ProgramStep(s: State, words: seq<nat>, t: State, k: nat,
                    op: Opcode, reg: Reg, mode: Mode, operand: Byte)
    requires CodeAt(s, words) && k < |words| && Reached(s, t, k)
    requires words[k] == Encode(op, reg, mode, operand)
    requires op == MOV || (IsAlu(op) && op != CMP)
    requires Result(op, t.rv[reg], Operand(t, mode, operand), t.flags).Outcome?
    ensures var r := Result(op, t.rv[reg], Operand(t, mode, operand), t.flags);
            && Reached(s, Cycle(t), k + 1)
            && Cycle(t).rv == t.rv[reg := r.value] && Cycle(t).flags == r.flags
  {
    hide Cycle, Encode, CodeAt, Alu;
    FetchWord(s, words, t, k);
    StepOf(t, op, reg, mode, operand);
  }

  lemma RunSteps(s: State)
    ensures Run(s, 1) == Cycle(s) && Run(s, 2) == Cycle(Run(s, 1)) && Run(s, 3) == Cycle(Run(s, 2))
    ensures Run(s, 4) == Cycle(Run(s, 3)) && Run(s, 5) == Cycle(Run(s, 4))
    ensures !s.halt ==> Reached(s, s, 0)
    ensures Reached(s, Run(s, 5), 5) ==> Run(s, 5).rip == s.rip + 10 && !Run(s, 5).halt
  {
    hide Cycle;
    assert Run(s, 0) == s;
  }

  function DivisionCode(a: Reg, b: Reg, d: Reg): seq<nat> {
    [Encode(MOV, b, Register, a), Encode(DIV, a, Register, d), Encode(MOD, b, Register, d),
     Encode(MUL, a, Register, d), Encode(ADD, a, Register, b)]
  }

  /** Quotient and remainder of words, multiplied and added back. */
  lemma QuotientBack(x: Word, y: Word)
    requires y > 0
    ensures 0 <= x / y < 0x10000 && 0 <= x % y < 0x10000
    ensures 0 <= (x / y) * y <= x && (x / y) * y + x % y == x
  {
    EuclidBound(x, y, x / y, x % y);
  }

  lemma MultiplyBack(x: Word, y: Word, f: Word)
    requires y > 0
    ensures 0 <= x / y < 0x10000
    ensures var o := Alu(MUL, x / y, y, f); o.Outcome? && o.value == (x / y) * y && !RC(o.flags)
  {
    hide RC, SetZNCO;
    QuotientBack(x, y);
    ProductFlags((x / y) * y, f);
    assert Alu(MUL, x / y, y, f) == Truncated((x / y) * y, f);
  }

  lemma AddBack(x: Word, y: Word, f: Word)
    requires y > 0
    ensures 0 <= (x / y) * y < 0x10000 && 0 <= x % y < 0x10000
    ensures var o := Alu(ADD, (x / y) * y, x % y, f); o.Outcome? && o.value == x && !RC(o.flags)
  {
    hide RC, SetZNCO;
    QuotientBack(x, y);
    AddFlags((x / y) * y, x % y, f);
  }

  /** Quotient times divisor plus remainder restores the dividend, with no carry
      out of the multiplication or the addition. */
  lemma DivisionIdentity(s: State, a: Reg, b: Reg, d: Reg)
    requires a != b && a != d && b != d && s.rv[d] != 0
    requires !s.halt && CodeAt(s, DivisionCode(a, b, d))
    ensures Run(s, 5).rv == s.rv[b := s.rv[a] % s.rv[d]]
    ensures !RC(Run(s, 4).flags) && !RC(Run(s, 5).flags)
    ensures Run(s, 5).rip == s.rip + 10 && !Run(s, 5).halt
  {
    hide Run, Cycle, Alu, Encode, CodeAt, RC, SetZN, Reached;
    var x, y := s.rv[a], s.rv[d];
    var code := DivisionCode(a, b, d);
    var s1, s2, s3, s4 := Run(s, 1), Run(s, 2), Run(s, 3), Run(s, 4);
    RunSteps(s);
    QuotientBack(x, y);
    ProgramStep(s, code, s, 0, MOV, b, Register, a);
    DivisionOutcome(x, y, s1.flags);
    ProgramStep(s, code, s1, 1, DIV, a, Register, d);
    DivisionOutcome(x, y, s2.flags);
    ProgramStep(s, code, s2, 2, MOD, b, Register, d);
    MultiplyBack(x, y, s3.flags);
    ProgramStep(s, code, s3, 3, MUL, a, Register, d);
    AddBack(x, y, s4.flags);
    ProgramStep(s, code, s4, 4, ADD, a, Register, b);
  }

  // ---- shifts ----

  /** SHL by k multiplies by 2^k; RC is the last bit shifted out. */
  lemma ShlMultiplies(dst: Word, k: nat, f: Word)
    requires 0 < k < 16
    ensures var o := ShiftLeft(dst, k, f);
            && o.value == dst * Pow2(k) % 0x10000
            && (RC(o.flags) <==> Bit(dst, 16 - k))
            && (RZ(o.flags) <==> o.value == 0)
            && (RN(o.flags) <==> Bit(dst, 15 - k))
  {
    hide Pow2, Bit, SetZNCO;
    Pow2Values();
    var p := dst * Pow2(k);
    var r := p % 0x10000;
    FlagsOf(f, r == 0, Negative(r), p / 0x10000 % 2 == 1, k == 1 && Negative(dst) != Negative(r));
    BitOfProduct(dst, k, 16);
    BitOfProduct(dst, k, 15);
    TopBitOfRemainder(p);
  }

  /** Multiplying by 2^k moves every bit up by k. */
  lemma BitOfProduct(x: nat, k: nat, n: nat)
    requires k <= n
    ensures x * Pow2(k) / Pow2(n) % 2 == 1 <==> Bit(x, n - k)
  {
    hide Pow2, Bit;
    Pow2Add(k, n - k);
    CancelFactor(x, Pow2(k), Pow2(n - k));
    BitIsQuotient(x, n - k);
  }

  lemma TopBitOfRemainder(p: nat)
    ensures p / 0x8000 % 2 == 1 <==> p % 0x10000 >= 0x8000
  {
    var q := p / 0x8000;
    assert p == 0x8000 * q + p % 0x8000;
    assert q == 2 * (q / 2) + q % 2;
    DivUnique(p, 0x10000, q / 2, 0x8000 * (q % 2) + p % 0x8000);
  }

  /** Reducing before multiplying does not change the product modulo 2^16. */
  lemma MulMod(x: nat, p: nat)
    ensures (x % 0x10000) * p % 0x10000 == x * p % 0x10000
  {
    var q, r := x / 0x10000, x % 0x10000;
    assert x == 0x10000 * q + r;
    var t := r * p;
    assert x * p == 0x10000 * (q * p) + t by {
      assert (0x10000 * q) * p == 0x10000 * (q * p);
    }
    assert t == 0x10000 * (t / 0x10000) + t % 0x10000;
    DivUnique(x * p, 0x10000, q * p + t / 0x10000, t % 0x10000);
  }

  lemma MulAssoc(x: nat, p: nat, q: nat)
    ensures x * p * q == x * (p * q)
  {
  }

  lemma ShlValue(dst: Word, k: nat, f: Word)
    requires k < 16
    ensures ShiftLeft(dst, k, f).Outcome?
    ensures ShiftLeft(dst, k, f).value == dst * Pow2(k) % 0x10000
  {
    hide Pow2, SetZNCO;
    Pow2Values();
  }

  /** Shifts left add up, as long as the total stays below 16. */
  lemma ShlTwice(dst: Word, a: nat, b: nat, f: Word, g: Word, h: Word)
    requires a + b <= 15
    ensures ShiftLeft(ShiftLeft(dst, a, f).value, b, g).value == ShiftLeft(dst, a + b, h).value
  {
    hide Pow2, ShiftLeft;
    ShlValue(dst, a, f);
    ShlValue(ShiftLeft(dst, a, f).value, b, g);
    ShlValue(dst, a + b, h);
    var p, q := Pow2(a), Pow2(b);
    Pow2Add(a, b);
    MulMod(dst * p, q);
    MulAssoc(dst, p, q);
  }

  /** Left and back right keeps the low 16 - k bits. */
  lemma ShlShr(dst: Word, k: nat, f: Word, g: Word)
    requires k < 16
    ensures ShiftRight(ShiftLeft(dst, k, f).value, k, g).value == dst % Pow2(16 - k)
  {
    hide Pow2, Shr, SetZNCO, SetZNC;
    Pow2Values();
    var p, q := Pow2(k), Pow2(16 - k);
    Pow2Add(k, 16 - k);
    CancelFactor(dst, p, q);
    var kept := dst % q;
    ShlValue(dst, k, f);
    assert ShiftLeft(dst, k, f).value == kept * p;
    ShrIsQuotient(kept * p, k);
    DivUnique(kept * p, p, kept, 0);
  }

  function ConstantCode(r: Reg, hi: Byte, lo: Byte): seq<nat> {
    [Encode(MOV, r, ImmOrAddr, hi), Encode(SHL, r, ImmOrAddr, 8), Encode(ADD, r, ImmOrAddr, lo)]
  }

  /** Three instructions build any 16-bit constant from its bytes. */
  lemma ConstantBuilt(s: State, r: Reg, hi: Byte, lo: Byte)
    requires !s.halt && CodeAt(s, ConstantCode(r, hi, lo))
    ensures Run(s, 3).rv == s.rv[r := 0x100 * hi + lo]
  {
    hide Run, Cycle, Alu, Encode, CodeAt, Reached;
    var code := ConstantCode(r, hi, lo);
    RunSteps(s);
    ProgramStep(s, code, s, 0, MOV, r, ImmOrAddr, hi);
    ShiftBy8(hi, Run(s, 1).flags);
    ProgramStep(s, code, Run(s, 1), 1, SHL, r, ImmOrAddr, 8);
    AddFlags(0x100 * hi, lo, Run(s, 2).flags);
    ProgramStep(s, code, Run(s, 2), 2, ADD, r, ImmOrAddr, lo);
  }

  lemma ShiftBy8(x: Byte, f: Word)
    ensures var o := Alu(SHL, x, 8, f); o.Outcome? && o.value == 0x100 * x
  {
    hide Pow2;
    Pow2Values();
    assert Alu(SHL, x, 8, f) == ShiftLeft(x, 8, f);
  }
}
