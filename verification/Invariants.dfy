/** What holds in every run of the machine, whatever the memory contains. */
module Invariants {
  import opened Isa
  import opened Bits
  import opened Machine
  import opened FlatMemory

  // ---- the state invariant ----

  /** RIP is even; RSP is odd and inside the stack; the unused flag bits and RSB
      stay clear. */
  ghost predicate Inv(s: State) {
    && s.rip % 2 == 0
    && s.rsp % 2 == 1 && STACK_START + 1 <= s.rsp <= STACK_END
    && s.flags < 16
    && s.rsb == 0
  }

  /** Calls that have not returned. */
  function Depth(s: State): int { (STACK_END - s.rsp) / 2 }

  lemma CycleKeepsInv(s: State)
    requires Inv(s)
    ensures Inv(Cycle(s))
  {
    hide Alu, ReadWord, OpcodeOf, BranchTarget;
    if !Stopped(s) {
      var w := Fetch(s);
      if IsAlu(OpcodeOf(w)) {
        AluFlagsSmall(OpcodeOf(w), s.rv[RegOf(w)], Source(s, w), s.flags);
      }
    }
  }

  lemma AluFlagsSmall(op: Opcode, dst: Word, src: Word, f: Word)
    requires IsAlu(op) && f < 16
    ensures var o := Alu(op, dst, src, f); o.Outcome? ==> o.flags < 16
  {
    hide Pow2, Shr, SetZNCO, SetZNC, SetZN, Negative, Signed;
    SmallFlags(f);
  }

  lemma SmallFlags(f: Word)
    requires f < 16
    ensures forall z, n, c, o :: SetZNCO(f, z, n, c, o) < 16
    ensures forall z, n, c :: SetZNC(f, z, n, c) < 16
    ensures forall z, n :: SetZN(f, z, n) < 16
  {
  }

  /** The invariant holds in every state a run reaches, whatever the memory, and
      so for self-modifying code too. */
  lemma {:induction false} InvariantOfRuns(s: State, n: nat)
    requires Inv(s)
    ensures Inv(Run(s, n))
    ensures var t := Run(s, n);
            && t.rip % 2 == 0 && t.rsp % 2 == 1 && 0xF001 <= t.rsp <= 0xFEFF && t.flags < 16 && t.rsb == 0
            && 0 <= Depth(t) <= 1919 && t.rsp == 0xFEFF - 2 * Depth(t)
  {
    hide Cycle;
    if n > 0 {
      InvariantOfRuns(s, n - 1);
      CycleKeepsInv(Run(s, n - 1));
    }
  }

  /** A machine with no pending calls, and any memory. */
  ghost predicate NoCalls(s: State) { Inv(s) && s.rsp == STACK_END }

  /** A new machine with any image loaded is one. */
  lemma NewMachine(image: seq<Byte>)
    requires |image| <= MEMORY_SIZE
    ensures NoCalls(Load(Initial(), image)) && !Load(Initial(), image).halt
  {
  }

  // ---- the call stack ----

  /** The next cycle completes a CALL. */
  ghost predicate Calls(s: State) {
    !Stopped(s) && OpcodeOf(Fetch(s)) == CALL && !Cycle(s).halt
  }

  /** The next cycle is a RET with something to return to. */
  ghost predicate Returns(s: State) {
    !Stopped(s) && OpcodeOf(Fetch(s)) == RET && s.rsp < STACK_END
  }

  /** The next cycle stores a word at address a. */
  ghost predicate StoresAt(s: State, a: Word) {
    !Stopped(s) && OpcodeOf(Fetch(s)) == STORE && a == Source(s, Fetch(s)) && !BadAddress(a)
  }

  /** The next cycle stores into the stack region. */
  ghost predicate StoresToStack(s: State) {
    exists a: Word :: StoresAt(s, a) && STACK_START <= a <= STACK_END
  }

  /** The return addresses of pending calls, newest first, by the history of
      calls and returns alone. */
  ghost function Pending(s: State, n: nat): seq<Word> {
    if n == 0 then []
    else
      var before, st := Run(s, n - 1), Pending(s, n - 1);
      if Calls(before) then [before.rip + 2] + st
      else if Returns(before) && st != [] then st[1..]
      else st
  }

  /** The bytes from RSP to 0xFEFE are exactly these words. */
  ghost predicate StackHolds(s: State, st: seq<Word>) {
    && s.rsp == STACK_END - 2 * |st|
    && |st| <= 1919
    && forall k :: 0 <= k < |st| ==> st[k] % 2 == 0 && ReadWord(s.mem, s.rsp + 2 * k) == st[k]
  }

  lemma CallPushes(s: State, st: seq<Word>)
    requires Inv(s) && StackHolds(s, st) && Calls(s)
    ensures StackHolds(Cycle(s), [s.rip + 2] + st) && Cycle(s).rsp == s.rsp - 2
  {
    hide BranchTarget, OpcodeOf;
    var m := WriteWord(s.mem, s.rsp - 2, s.rip + 2);
    var pushed := [s.rip + 2] + st;
    forall k | 0 <= k < |pushed|
      ensures pushed[k] % 2 == 0 && ReadWord(m, s.rsp - 2 + 2 * k) == pushed[k]
    {
      if k == 0 {
        ReadOwnWrite(s.mem, s.rsp - 2, s.rip + 2);
      } else {
        assert ReadWord(s.mem, s.rsp + 2 * (k - 1)) == st[k - 1];
        ReadOtherWrite(s.mem, s.rsp - 2, s.rip + 2, s.rsp + 2 * (k - 1));
      }
    }
  }

  lemma ReturnPops(s: State, st: seq<Word>)
    requires Inv(s) && StackHolds(s, st) && Returns(s)
    ensures st != [] && !Cycle(s).halt && Cycle(s).rip == st[0]
    ensures StackHolds(Cycle(s), st[1..]) && Cycle(s).rsp == s.rsp + 2
  {
    hide OpcodeOf, ReadWord;
    assert st != [];
    assert ReadWord(s.mem, s.rsp + 2 * 0) == st[0];
    forall k | 0 <= k < |st[1..]|
      ensures st[1..][k] % 2 == 0 && ReadWord(s.mem, s.rsp + 2 + 2 * k) == st[1..][k]
    {
      assert ReadWord(s.mem, s.rsp + 2 * (k + 1)) == st[k + 1];
    }
  }

  lemma OthersKeepStack(s: State, st: seq<Word>)
    requires Inv(s) && StackHolds(s, st) && !Calls(s) && !Returns(s) && !StoresToStack(s)
    ensures StackHolds(Cycle(s), st) && Cycle(s).rsp == s.rsp
  {
    hide OpcodeOf, BranchTarget, Alu, ReadWord, WriteWord;
    if !Stopped(s) && OpcodeOf(Fetch(s)) == STORE {
      var a := Source(s, Fetch(s));
      if !BadAddress(a) {
        assert StoresAt(s, a);
        forall k | 0 <= k < |st|
          ensures ReadWord(Cycle(s).mem, s.rsp + 2 * k) == st[k]
        {
          ReadOtherWrite(s.mem, a, s.rv[RegOf(Fetch(s))], s.rsp + 2 * k);
        }
      }
    }
  }

  lemma StackStep(s: State, st: seq<Word>)
    requires Inv(s) && StackHolds(s, st) && !StoresToStack(s)
    ensures var next := if Calls(s) then [s.rip + 2] + st else if Returns(s) && st != [] then st[1..] else st;
            StackHolds(Cycle(s), next)
  {
    hide Cycle, Calls, Returns, StackHolds, StoresToStack;
    if Calls(s) {
      CallPushes(s, st);
    } else if Returns(s) {
      ReturnPops(s, st);
    } else {
      OthersKeepStack(s, st);
    }
  }

  /** A run with no store into the stack region. */
  ghost predicate StackSafe(s: State, n: nat)
    requires NoCalls(s)
  {
    forall k :: 0 <= k < n ==> !StoresToStack(Run(s, k))
  }

  /** Memory from RSP up holds the pending return addresses and nothing else. */
  lemma {:induction false} CallStackRefined(s: State, n: nat)
    requires NoCalls(s) && StackSafe(s, n)
    ensures StackHolds(Run(s, n), Pending(s, n))
  {
    hide Cycle, Inv, Calls, Returns, StoresToStack;
    if n > 0 {
      CallStackRefined(s, n - 1);
      InvariantOfRuns(s, n - 1);
      StackStep(Run(s, n - 1), Pending(s, n - 1));
    }
  }

  /** RET takes the newest pending address and never faults. */
  lemma ReturnNeverFaults(s: State, n: nat)
    requires n > 0 && NoCalls(s) && StackSafe(s, n - 1)
    requires Returns(Run(s, n - 1))
    ensures Pending(s, n - 1) != []
    ensures !Run(s, n).halt && Run(s, n).rip == Pending(s, n - 1)[0]
  {
    hide Cycle, Inv, Calls, Returns, StoresToStack;
    CallStackRefined(s, n - 1);
    InvariantOfRuns(s, n - 1);
    ReturnPops(Run(s, n - 1), Pending(s, n - 1));
  }

  lemma PendingDepth(s: State, n: nat)
    requires NoCalls(s) && StackSafe(s, n)
    ensures Run(s, n).rsp == STACK_END - 2 * |Pending(s, n)|
  {
    CallStackRefined(s, n);
  }

  lemma CallDeepens(s: State, n: nat)
    requires Calls(Run(s, n))
    ensures Pending(s, n + 1) == [Run(s, n).rip + 2] + Pending(s, n)
  {
    hide Run, Calls;
  }

  /** A cycle keeps every pending address that it does not pop, counted from the
      oldest. */
  lemma PendingKept(s: State, n: nat, b: nat)
    requires n > 0 && b < |Pending(s, n - 1)| && b < |Pending(s, n)|
    ensures Pending(s, n)[|Pending(s, n)| - 1 - b] == Pending(s, n - 1)[|Pending(s, n - 1)| - 1 - b]
  {
    hide Run, Calls, Returns;
  }

  /** While RSP stays below where a CALL found it, that call's return address
      stays just below the addresses that were pending before it. */
  lemma {:induction false} ReturnAddressKept(s: State, i: nat, k: nat)
    requires NoCalls(s) && i < k && StackSafe(s, k)
    requires Calls(Run(s, i))
    requires forall j :: i < j <= k ==> Run(s, j).rsp < Run(s, i).rsp
    ensures |Pending(s, k)| > |Pending(s, i)|
    ensures Pending(s, k)[|Pending(s, k)| - |Pending(s, i)| - 1] == Run(s, i).rip + 2
  {
    hide Run, Pending, Inv, Calls, Returns, StoresToStack;
    PendingDepth(s, k);
    PendingDepth(s, i);
    CallDeepens(s, i);
    if k > i + 1 {
      ReturnAddressKept(s, i, k - 1);
      PendingKept(s, k, |Pending(s, i)|);
    }
  }

  lemma OnlyReturnsPop(s: State, n: nat)
    requires n > 0
    ensures |Pending(s, n)| >= |Pending(s, n - 1)| - 1
    ensures |Pending(s, n)| >= |Pending(s, n - 1)| || Returns(Run(s, n - 1))
  {
    hide Run, Calls, Returns;
  }

  /** A call comes back: the first time RSP is again where the CALL found it, RIP
      is at the instruction right after the CALL, however deeply calls nested. */
  lemma CallReturnsToNext(s: State, i: nat, j: nat)
    requires NoCalls(s) && i < j && StackSafe(s, j)
    requires Calls(Run(s, i))
    requires forall k :: i < k < j ==> Run(s, k).rsp < Run(s, i).rsp
    requires Run(s, j).rsp == Run(s, i).rsp
    ensures Run(s, j).rip == Run(s, i).rip + 2
  {
    hide Run, Pending, Calls, Returns, StoresToStack, Inv;
    CallDeepens(s, i);
    PendingDepth(s, i);
    PendingDepth(s, i + 1);
    assert i + 1 < j;
    ReturnAddressKept(s, i, j - 1);
    PendingDepth(s, j);
    OnlyReturnsPop(s, j);
    ReturnNeverFaults(s, j);
  }

  // ---- memory as a table of words ----

  /** The words stored so far, by address: the history of STOREs alone. */
  ghost function Stored(s: State, n: nat): map<Word, Word> {
    if n == 0 then map[]
    else
      var before := Run(s, n - 1);
      if !Stopped(before) && StoresAt(before, Source(before, Fetch(before))) then
        Stored(s, n - 1)[Source(before, Fetch(before)) := before.rv[RegOf(Fetch(before))]]
      else Stored(s, n - 1)
  }

  /** The last word stored at an address, or the word that was there. */
  ghost function LastStored(s: State, n: nat, a: Word): Word
    requires a < 0xFFFF
  {
    if a in Stored(s, n) then Stored(s, n)[a] else ReadWord(s.mem, a)
  }

  lemma WordStep(s: State, a: Word)
    requires Inv(s) && a % 2 == 0 && !(STACK_START <= a <= STACK_END)
    ensures ReadWord(Cycle(s).mem, a)
         == if StoresAt(s, a) then s.rv[RegOf(Fetch(s))] else ReadWord(s.mem, a)
  {
    hide OpcodeOf, BranchTarget, Alu, ReadWord, WriteWord;
    if !Stopped(s) {
      var w := Fetch(s);
      if OpcodeOf(w) == STORE {
        var b := Source(s, w);
        if BadAddress(b) {
        } else if b == a {
          ReadOwnWrite(s.mem, a, s.rv[RegOf(w)]);
        } else {
          ReadOtherWrite(s.mem, b, s.rv[RegOf(w)], a);
        }
      } else if OpcodeOf(w) == CALL && s.rsp >= STACK_START + 2 {
        ReadOtherWrite(s.mem, s.rsp - 2, s.rip + 2, a);
      }
    }
  }

  /** Bytes refine words: outside the stack an even address holds the last word
      stored there.  Even words do not overlap, and calls write odd slots. */
  lemma {:induction false} MemoryIsWords(s: State, n: nat, a: Word)
    requires Inv(s) && a % 2 == 0 && !(STACK_START <= a <= STACK_END)
    ensures ReadWord(Run(s, n).mem, a) == LastStored(s, n, a)
  {
    hide Cycle, Inv, ReadWord;
    if n > 0 {
      MemoryIsWords(s, n - 1, a);
      InvariantOfRuns(s, n - 1);
      WordStep(Run(s, n - 1), a);
    }
  }

  /** So a LOAD yields the last word stored at its address. */
  lemma LoadYieldsLastStore(s: State, n: nat, a: Word)
    requires Inv(s) && !Stopped(Run(s, n))
    requires OpcodeOf(Fetch(Run(s, n))) == LOAD && a == Source(Run(s, n), Fetch(Run(s, n)))
    requires !BadAddress(a) && !(STACK_START <= a <= STACK_END)
    ensures Run(s, n + 1).rv[RegOf(Fetch(Run(s, n)))] == LastStored(s, n, a)
  {
    hide OpcodeOf, ReadWord;
    MemoryIsWords(s, n, a);
    assert Run(s, n + 1) == Cycle(Run(s, n));
  }
}
