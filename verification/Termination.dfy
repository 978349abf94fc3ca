/** When the run loop stops (rocketvm/vm.c, rocketvm/cpu/cpu.c). */
module Termination {
  import opened Isa
  import opened Machine
  import opened Encoder
  import opened Invariants
  import opened WordFormat
  import opened ProgramStore
  import opened Simulation

  /** One cycle for each slot that can be fetched: 0x0000, 0x0002, ..., 0x7FFC. */
  const MAX_CYCLES := MAX_INSTRS

  // ---- forward code ----

  /** Not a CALL, and a jump only by a displacement that is not negative. */
  predicate ForwardWord(w: Word) {
    && OpcodeOf(w) != CALL
    && (OpcodeOf(w) == JMP || OpcodeOf(w) == JZ || OpcodeOf(w) == JNZ ==>
          JumpModeOf(w) == ImmOrAddr && JumpOffsetOf(w) >= 0)
  }

  ghost predicate ForwardCode(m: Bytes) {
    forall a: Word :: a % 2 == 0 && a <= PROGRAM_END - 3 ==> ForwardWord(ReadWord(m, a))
  }

  /** The next cycle stores into the program region. */
  ghost predicate StoresToProgram(s: State) {
    exists a: Word :: StoresAt(s, a) && a <= PROGRAM_END
  }

  ghost predicate KeepsProgram(s: State, n: nat) {
    forall k :: 0 <= k < n ==> !StoresToProgram(Run(s, k))
  }

  /** Each cycle of forward code halts or moves RIP up by at least 2. */
  lemma ForwardStep(s: State)
    requires NoCalls(s) && ForwardCode(s.mem) && !Stopped(s) && !StoresToProgram(s)
    ensures NoCalls(Cycle(s)) && ForwardCode(Cycle(s).mem)
    ensures Cycle(s).halt || Cycle(s).rip >= s.rip + 2
  {
    CycleKeepsInv(s);
    ForwardMoves(s);
    ForwardKeepsCode(s);
  }

  lemma ForwardMoves(s: State)
    requires NoCalls(s) && ForwardCode(s.mem) && !Stopped(s)
    ensures Cycle(s).rsp == STACK_END
    ensures Cycle(s).halt || Cycle(s).rip >= s.rip + 2
  {
    hide OpcodeOf, JumpModeOf, JumpOffsetOf, Alu, Source, ReadWord, WriteWord;
    var w := Fetch(s);
    assert ForwardWord(w);
    OffsetBound(w);
  }

  lemma OffsetBound(w: Word)
    ensures -1024 <= JumpOffsetOf(w) <= 1023
  {
  }

  lemma ForwardKeepsCode(s: State)
    requires NoCalls(s) && ForwardCode(s.mem) && !Stopped(s) && !StoresToProgram(s)
    ensures ForwardCode(Cycle(s).mem)
  {
    hide OpcodeOf, BranchTarget, Alu, ReadWord, WriteWord, ForwardWord;
    forall a: Word | a % 2 == 0 && a <= PROGRAM_END - 3
      ensures ForwardWord(ReadWord(Cycle(s).mem, a))
    {
      WordStep(s, a);
      assert ForwardWord(ReadWord(s.mem, a));
    }
  }

  lemma {:induction false} ForwardRuns(s: State, n: nat)
    requires NoCalls(s) && ForwardCode(s.mem) && KeepsProgram(s, n)
    ensures NoCalls(Run(s, n)) && ForwardCode(Run(s, n).mem)
    ensures Stopped(Run(s, n)) || Run(s, n).rip >= s.rip + 2 * n
  {
    hide Cycle, NoCalls, ForwardCode, StoresToProgram;
    if n > 0 {
      ForwardRuns(s, n - 1);
      var before := Run(s, n - 1);
      if Stopped(before) {
        CycleOfStopped(before);
      } else {
        ForwardStep(before);
      }
    }
  }

  /** Forward code stops within one cycle per slot: RIP only rises. */
  lemma ForwardCodeStops(s: State)
    requires NoCalls(s) && ForwardCode(s.mem) && KeepsProgram(s, 16383)
    ensures Stopped(Run(s, 16383)) && Stops(s)
  {
    ForwardRuns(s, MAX_CYCLES);
  }

  // ---- forward programs ----

  /** No call, and branches only to labels further on. */
  ghost predicate ForwardInstr(p: Program, k: nat)
    requires k < |p.instrs|
  {
    var i := p.instrs[k];
    && i.opcode != CALL
    && (IsBranch(i.opcode) ==> i.opr1.LabelOperand? && FindLabel(p.labels, i.opr1.name) > k)
  }

  ghost predicate ForwardProgram(p: Program) {
    forall k :: 0 <= k < |p.instrs| ==> ForwardInstr(p, k)
  }

  predicate NoStores(p: Program) {
    forall i :: i in p.instrs ==> i.opcode != STORE
  }

  /** A forward instruction is emitted as a forward word. */
  lemma ForwardEncodes(p: Program, words: seq<Word>, k: nat)
    requires Assembled(p, words) && k < |p.instrs| && ForwardInstr(p, k)
    ensures ForwardWord(words[k]) && OpcodeOf(words[k]) == p.instrs[k].opcode
  {
    hide JumpImm, OpcodeOf, JumpModeOf, JumpOffsetOf;
    var i := p.instrs[k];
    EncodedOpcode(p, i, k, words[k]);
    if IsBranch(i.opcode) {
      var simm := ResolveLabel(p, i.opr1.name, k);
      FindLabelLowest(p.labels, |p.instrs|, i.opr1.name);
      assert Int16(simm) == simm;
      JumpImmLayout(i.opcode, simm);
    }
  }

  /** Every word of the program region, in the image or after it. */
  lemma ImageWords(p: Program, words: seq<Word>, a: Word)
    requires Assembled(p, words) && a % 2 == 0 && a <= PROGRAM_END
    ensures ReadWord(Load(Initial(), Image(words)).mem, a) == if a / 2 < |words| then words[a / 2] else 0
  {
    hide Load, Image, Initial, ReadWord, EncodesTo, LabelsInOrder;
    var k := a / 2;
    assert a == 2 * k;
    if k < |words| {
      FetchLoaded(Initial(), words, k);
    } else {
      ZeroAfterImage(words, a);
    }
  }

  lemma ForwardImage(p: Program, words: seq<Word>)
    requires Assembled(p, words) && ForwardProgram(p)
    ensures ForwardCode(Load(Initial(), Image(words)).mem)
  {
    hide Load, Image, Initial, ReadWord, ForwardInstr, ForwardWord;
    forall a: Word | a % 2 == 0 && a <= PROGRAM_END - 3
      ensures ForwardWord(ReadWord(Load(Initial(), Image(words)).mem, a))
    {
      ImageWords(p, words, a);
      if a / 2 < |words| {
        ForwardEncodes(p, words, a / 2);
      } else {
        ZeroIsForward();
      }
    }
  }

  lemma ZeroIsForward()
    ensures ForwardWord(0) && OpcodeOf(0) == MOV
  {
  }

  lemma OnlyStoresAndCallsWrite(s: State)
    requires !Stopped(s) ==> OpcodeOf(Fetch(s)) != STORE && OpcodeOf(Fetch(s)) != CALL
    ensures Cycle(s).mem == s.mem
  {
    hide OpcodeOf, Source, Alu, BranchTarget, ReadWord;
  }

  /** Without STORE and CALL instructions a run never changes memory. */
  lemma {:induction false} MemoryUntouched(s: State, p: Program, words: seq<Word>, n: nat)
    requires Assembled(p, words) && ForwardProgram(p) && NoStores(p)
    requires s == Load(Initial(), Image(words))
    ensures Inv(Run(s, n)) && Run(s, n).mem == s.mem && KeepsProgram(s, n)
  {
    hide Cycle, Load, Image, Initial, ReadWord, ForwardWord, Inv;
    if n == 0 {
      NewMachine(Image(words));
    } else {
      MemoryUntouched(s, p, words, n - 1);
      var before := Run(s, n - 1);
      CycleKeepsInv(before);
      if !Stopped(before) {
        InvBounds(before);
        ImageWords(p, words, before.rip);
        if before.rip / 2 < |words| {
          ForwardEncodes(p, words, before.rip / 2);
          assert p.instrs[before.rip / 2] in p.instrs;
        } else {
          ZeroIsForward();
        }
      }
      OnlyStoresAndCallsWrite(before);
    }
  }

  lemma InvBounds(s: State)
    requires Inv(s)
    ensures s.rip % 2 == 0
  {
  }

  /** An assembled forward program stops within one cycle per slot, provided its
      stores, if it has any, keep off the program region. */
  lemma ForwardProgramStops(p: Program, words: seq<Word>)
    requires Assembled(p, words) && ForwardProgram(p)
    requires NoStores(p) || KeepsProgram(Load(Initial(), Image(words)), 16383)
    ensures Stopped(Run(Load(Initial(), Image(words)), 16383))
    ensures Stops(Load(Initial(), Image(words)))
  {
    hide Load, Image, Initial, Run, KeepsProgram, ForwardCode, EncodesTo, LabelsInOrder, NoCalls;
    NewMachine(Image(words));
    ForwardImage(p, words);
    if NoStores(p) { MemoryUntouched(Load(Initial(), Image(words)), p, words, MAX_CYCLES); }
    ForwardCodeStops(Load(Initial(), Image(words)));
  }

  // ---- falling off the end ----

  /** Straight-line code: anything but a jump, a call or a return. */
  predicate PlainWord(w: Word) { !IsBranch(OpcodeOf(w)) && OpcodeOf(w) != RET }

  /** The words of the program region are the same. */
  ghost predicate SameProgram(m: Bytes, n: Bytes) {
    forall a: Word :: a % 2 == 0 && a <= PROGRAM_END ==> ReadWord(n, a) == ReadWord(m, a)
  }

  lemma PlainMoves(s: State)
    requires !Stopped(s) && PlainWord(Fetch(s))
    ensures Cycle(s).halt || Cycle(s).rip == s.rip + 2
  {
    hide OpcodeOf, Source, Alu, ReadWord, WriteWord;
  }

  lemma KeepsWords(s: State)
    requires Inv(s) && !StoresToProgram(s)
    ensures SameProgram(s.mem, Cycle(s).mem)
  {
    hide Cycle, StoresAt, ReadWord, Inv;
    forall a: Word | a % 2 == 0 && a <= PROGRAM_END
      ensures ReadWord(Cycle(s).mem, a) == ReadWord(s.mem, a)
    {
      WordStep(s, a);
    }
  }

  /** While it has not halted, straight-line code advances one word a cycle. */
  lemma {:induction false} PlainRuns(s: State, words: seq<Word>, n: nat)
    requires n <= |words| <= MAX_CYCLES && s == Load(Initial(), Image(words))
    requires forall w :: w in words ==> PlainWord(w)
    requires KeepsProgram(s, n) && !Run(s, n).halt
    ensures Inv(Run(s, n)) && Run(s, n).rip == 2 * n && SameProgram(s.mem, Run(s, n).mem)
  {
    hide Cycle, Initial, Load, Image, PlainWord, Inv, StoresToProgram, ReadWord;
    NewMachineRip(words);
    if n > 0 {
      var before := Run(s, n - 1);
      if before.halt { CycleOfStopped(before); }
      PlainRuns(s, words, n - 1);
      FetchLoaded(Initial(), words, n - 1);
      assert Fetch(before) == words[n - 1];
      PlainMoves(before);
      KeepsWords(before);
      CycleKeepsInv(before);
    }
  }

  lemma NewMachineRip(words: seq<Word>)
    requires |words| <= MAX_CYCLES
    ensures var s := Load(Initial(), Image(words)); Inv(s) && s.rip == 0 && !s.halt
  {
    NewMachine(Image(words));
  }

  /** A zero word is `MOV RV0, 0`. */
  lemma ZeroWord(s: State)
    requires !Stopped(s) && Fetch(s) == 0
    ensures Cycle(s) == s.(rip := s.rip + 2, rv := s.rv[0 := 0])
  {
  }

  /** After the program the machine runs the zero words that follow it. */
  lemma {:induction false} ZeroRuns(s: State, words: seq<Word>, n: nat)
    requires |words| < n <= MAX_CYCLES && s == Load(Initial(), Image(words))
    requires forall w :: w in words ==> PlainWord(w)
    requires KeepsProgram(s, |words|) && !Run(s, |words|).halt
    ensures Run(s, n) == Run(s, |words|).(rip := 2 * n, rv := Run(s, |words|).rv[0 := 0])
  {
    hide Cycle, Initial, Load, Image, PlainWord, Inv, StoresToProgram, ReadWord;
    var before := Run(s, n - 1);
    PlainRuns(s, words, |words|);
    if n - 1 > |words| {
      ZeroRuns(s, words, n - 1);
    }
    ZeroAfterImage(words, 2 * (n - 1));
    ZeroWord(before);
  }

  lemma ZeroAfterImage(words: seq<Word>, a: Word)
    requires 2 * |words| <= a < 0xFFFF
    ensures ReadWord(Load(Initial(), Image(words)).mem, a) == 0
  {
    LoadedRest(Initial(), words, a);
    LoadedRest(Initial(), words, a + 1);
  }

  /** Straight-line code that does not overwrite the program region stops.
      Either it halts while still in the program, on a zero divisor or a bad data
      address, or it runs off its end, through the zero words, to an
      out-of-bounds fetch at 0x7FFE in exactly cycle 16383. */
  lemma FallsOffTheEnd(s: State, words: seq<Word>, m: nat)
    requires |words| <= MAX_CYCLES && s == Load(Initial(), Image(words))
    requires forall w :: w in words ==> PlainWord(w)
    requires KeepsProgram(s, |words|)
    ensures Stops(s)
    ensures m >= |words| ==> (Run(s, m).halt <==> Run(s, |words|).halt)
    ensures !Run(s, |words|).halt ==>
              && (Stopped(Run(s, m)) <==> m >= 16383)
              && (m >= 16383 ==> !Run(s, m).halt && Run(s, m).rip == 0x7FFE)
              && (m >= 16383 && |words| < 16383 ==> Run(s, m).rv == Run(s, |words|).rv[0 := 0])
  {
    hide Cycle, Initial, Load, Image, PlainWord, Inv, SameProgram;
    if Run(s, |words|).halt {
      assert Stopped(Run(s, |words|));
      if m >= |words| { StoppedForever(s, |words|, m); }
    } else {
      EndOfStraightLine(s, words);
      if m >= MAX_CYCLES {
        StoppedForever(s, MAX_CYCLES, m);
      } else if m <= |words| {
        if Run(s, m).halt { StoppedForever(s, m, |words|); }
        assert KeepsProgram(s, m);
        PlainRuns(s, words, m);
      } else {
        ZeroRuns(s, words, m);
      }
    }
  }

  lemma EndOfStraightLine(s: State, words: seq<Word>)
    requires |words| <= MAX_CYCLES && s == Load(Initial(), Image(words))
    requires forall w :: w in words ==> PlainWord(w)
    requires KeepsProgram(s, |words|) && !Run(s, |words|).halt
    ensures var t := Run(s, MAX_CYCLES);
            && !t.halt && t.rip == 0x7FFE
            && (|words| < MAX_CYCLES ==> t.rv == Run(s, |words|).rv[0 := 0])
    ensures Stops(s)
  {
    hide Cycle, Initial, Load, Image, PlainWord, Inv, SameProgram;
    PlainRuns(s, words, |words|);
    if |words| < MAX_CYCLES {
      ZeroRuns(s, words, MAX_CYCLES);
    }
    assert Stopped(Run(s, MAX_CYCLES));
  }
}
