/** The machine as a state with a step function: what one fetch-decode-execute
    cycle means, in mathematical terms.

    Results and flags are stated by their meaning (sums, products, signed
    ranges); the class `Cpu` computes them with the original's masks and bit
    tricks and is proved to refine this step. */
module Machine {
  import opened Isa
  import opened Bits

  const PROGRAM_END: Word := 0x7FFF
  const STACK_START: Word := 0xF000
  const STACK_END: Word := 0xFEFF
  const MEMORY_SIZE: int := 0x10000

  type Registers = r: seq<Word> | |r| == 8 witness [0, 0, 0, 0, 0, 0, 0, 0]
  type Bytes = m: seq<Byte> | |m| == MEMORY_SIZE witness seq(MEMORY_SIZE, _ => 0)

  datatype State = State(rv: Registers, rip: Word, rsp: Word, rsb: Word, flags: Word, halt: bool, mem: Bytes)

  // ---- memory ----

  /** The little-endian word at an address. */
  function ReadWord(m: Bytes, a: Word): Word
    requires a < 0xFFFF
  {
    var low: int, high: int := m[a], m[a + 1];
    low + 0x100 * high
  }

  function WriteWord(m: Bytes, a: Word, v: Word): Bytes
    requires a < 0xFFFF
  {
    m[a := v % 0x100][a + 1 := v / 0x100]
  }

  // ---- flags ----

  predicate RZ(f: Word) { f % 2 == 1 }
  predicate RN(f: Word) { f / 2 % 2 == 1 }
  predicate RC(f: Word) { f / 4 % 2 == 1 }
  predicate RO(f: Word) { f / 8 % 2 == 1 }

  function B(b: bool): nat { if b then 1 else 0 }

  /** All four flags replaced, the unused bits kept. */
  function SetZNCO(f: Word, z: bool, n: bool, c: bool, o: bool): Word {
    f - f % 16 + B(z) + 2 * B(n) + 4 * B(c) + 8 * B(o)
  }

  function SetZNC(f: Word, z: bool, n: bool, c: bool): Word {
    f - f % 8 + B(z) + 2 * B(n) + 4 * B(c)
  }

  function SetZN(f: Word, z: bool, n: bool): Word {
    f - f % 4 + B(z) + 2 * B(n)
  }

  // ---- arithmetic ----

  /** The result written to the destination, and the flags after it. */
  datatype Outcome = Outcome(value: Word, flags: Word) | DivisionByZero

  predicate Negative(x: Word) { x >= 0x8000 }

  /** What the ALU instructions and CMP compute from a destination value, a
      source value and the current flags. */
  function Alu(op: Opcode, dst: Word, src: Word, f: Word): Outcome
    requires IsAlu(op)
  {
    match op
    case ADD =>
      var r := (dst + src) % 0x10000;
      Outcome(r, SetZNCO(f, r == 0, Negative(r), dst + src > 0xFFFF,
                         !(-0x8000 <= Signed(dst) + Signed(src) < 0x8000)))
    case SUB => Difference(dst, src, f)
    case CMP => Difference(dst, src, f)
    case MUL => Truncated((dst as int) * src, f)
    case DIV =>
      if src == 0 then DivisionByZero
      else var r := dst / src; Outcome(r, SetZN(f, r == 0, Negative(r)))
    case MOD =>
      if src == 0 then DivisionByZero
      else var r := dst % src; Outcome(r, SetZN(f, r == 0, Negative(r)))
    case SHL => ShiftLeft(dst, src % 16, f)
    case SHR => ShiftRight(dst, src % 16, f)
  }

  function Difference(dst: Word, src: Word, f: Word): Outcome {
    var r := (dst - src) % 0x10000;
    Outcome(r, SetZNCO(f, dst == src, Negative(r), dst < src,
                       !(-0x8000 <= Signed(dst) - Signed(src) < 0x8000)))
  }

  /** A product cut to 16 bits; RC and RO both say that it did not fit. */
  function Truncated(product: nat, f: Word): Outcome {
    var r := product % 0x10000;
    Outcome(r, SetZNCO(f, r == 0, Negative(r), product > 0xFFFF, product > 0xFFFF))
  }

  /** A shift by 0 changes nothing; otherwise the carry is the last bit shifted
      out, and only a shift by 1 can set the overflow flag. */
  function ShiftLeft(dst: Word, k: nat, f: Word): Outcome
    requires k < 16
  {
    if k == 0 then Outcome(dst, f)
    else
      var r := (dst * Pow2(k)) % 0x10000;
      Outcome(r, SetZNCO(f, r == 0, Negative(r), dst * Pow2(k) / 0x10000 % 2 == 1,
                         k == 1 && Negative(dst) != Negative(r)))
  }

  /** Unlike SHL, a shift by 0 still updates the flags; RO is never touched. */
  function ShiftRight(dst: Word, k: nat, f: Word): Outcome
    requires k < 16
  {
    var r := Shr(dst, k);
    Outcome(r, SetZNC(f, r == 0, Negative(r), k > 0 && Shr(dst, k - 1) % 2 == 1))
  }

  // ---- execution of one fetched word; RIP is already past it ----

  function Fault(s: State): State { s.(halt := true) }

  function Source(s: State, w: Word): Word {
    if ModeOf(w) == ImmOrAddr then OperandOf(w) else s.rv[w % 8]
  }

  function ExecMov(s: State, w: Word): State {
    s.(rv := s.rv[RegOf(w) := Source(s, w)])
  }

  /** An address that LOAD, STORE, branches and returns refuse. */
  predicate BadAddress(a: Word) { a == 0xFFFF || a % 2 == 1 }

  function ExecLoad(s: State, w: Word): State {
    var a := Source(s, w);
    if BadAddress(a) then Fault(s)
    else s.(rv := s.rv[RegOf(w) := ReadWord(s.mem, a)])
  }

  function ExecStore(s: State, w: Word): State {
    var a := Source(s, w);
    if BadAddress(a) then Fault(s)
    else s.(mem := WriteWord(s.mem, a, s.rv[RegOf(w)]))
  }

  function ExecAlu(s: State, w: Word): State
    requires IsAlu(OpcodeOf(w))
  {
    match Alu(OpcodeOf(w), s.rv[RegOf(w)], Source(s, w), s.flags)
    case DivisionByZero => s.(halt := true)
    case Outcome(v, f) =>
      s.(flags := f, rv := if OpcodeOf(w) == CMP then s.rv else s.rv[RegOf(w) := v])
  }

  function BranchTarget(s: State, w: Word): Word {
    if JumpModeOf(w) == ImmOrAddr then (s.rip + JumpOffsetOf(w)) % 0x10000 else s.rv[w % 8]
  }

  function ExecJmp(s: State, w: Word): State {
    var a := BranchTarget(s, w);
    if BadAddress(a) then Fault(s) else s.(rip := a)
  }

  function ExecJz(s: State, w: Word): State {
    if RZ(s.flags) then ExecJmp(s, w) else s
  }

  function ExecJnz(s: State, w: Word): State {
    if RZ(s.flags) then s else ExecJmp(s, w)
  }

  function ExecCall(s: State, w: Word): State {
    var a := BranchTarget(s, w);
    if BadAddress(a) || s.rsp < STACK_START + 2 then Fault(s)
    else s.(rsp := s.rsp - 2, mem := WriteWord(s.mem, s.rsp - 2, s.rip), rip := a)
  }

  function ExecRet(s: State): State {
    if s.rsp > STACK_END - 1 then s.(halt := true)
    else
      var a := ReadWord(s.mem, s.rsp);
      if BadAddress(a) then Fault(s.(rsp := s.rsp + 2))
      else s.(rsp := s.rsp + 2, rip := a)
  }

  function Execute(s: State, w: Word): State {
    match OpcodeOf(w)
    case MOV => ExecMov(s, w)
    case LOAD => ExecLoad(s, w)
    case STORE => ExecStore(s, w)
    case JMP => ExecJmp(s, w)
    case JZ => ExecJz(s, w)
    case JNZ => ExecJnz(s, w)
    case CALL => ExecCall(s, w)
    case RET => ExecRet(s)
    case _ => ExecAlu(s, w)
  }

  // ---- cycles and runs ----

  /** `rvm_vm_run` leaves its loop: halted, or the fetch is out of bounds. */
  predicate Stopped(s: State) { s.halt || s.rip > PROGRAM_END - 2 }

  /** The word about to be executed. */
  function Fetch(s: State): Word
    requires !Stopped(s)
  {
    ReadWord(s.mem, s.rip)
  }

  /** One `rvm_cpu_cycle`.  A stopped machine does not change. */
  function Cycle(s: State): State {
    if Stopped(s) then s else Execute(s.(rip := s.rip + 2), Fetch(s))
  }

  lemma CycleOfStopped(s: State)
    requires Stopped(s)
    ensures Cycle(s) == s
  {
  }

  /** n cycles. */
  function Run(s: State, n: nat): State {
    if n == 0 then s else Cycle(Run(s, n - 1))
  }

  /** The run loop comes to an end. */
  ghost predicate Stops(s: State) {
    exists n: nat :: Stopped(Run(s, n))
  }

  lemma {:induction false} RunAdd(s: State, m: nat, n: nat)
    ensures Run(s, m + n) == Run(Run(s, m), n)
  {
    hide Cycle;
    if n > 0 {
      RunAdd(s, m, n - 1);
      assert Run(s, m + n) == Cycle(Run(s, m + (n - 1)));
    }
  }

  /** Nothing happens after the machine has stopped. */
  lemma {:induction false} StoppedForever(s: State, m: nat, n: nat)
    requires Stopped(Run(s, m)) && m <= n
    ensures Run(s, n) == Run(s, m)
    decreases n
  {
    if m < n { StoppedForever(s, m, n - 1); }
  }

  /** `rvm_vm_create`. */
  function Initial(): State {
    State([0, 0, 0, 0, 0, 0, 0, 0], 0, STACK_END, 0, 0, false, seq(MEMORY_SIZE, _ => 0))
  }

  /** The copy in `rvm_vm_load`. */
  function Load(s: State, image: seq<Byte>): State
    requires |image| <= MEMORY_SIZE
  {
    s.(mem := image + s.mem[|image|..])
  }
}
