/** The listing printer (rocketasm/program.c), and a listing of a whole program
    as source text: instruction bodies with label lines in between. */
module Listing {
  import opened Names
  import opened ProgramStore
  import opened Grammar

  /** `%zu`, and `%d` of a number that is not negative. */
  function Decimal(n: nat): (s: string)
    ensures s != ""
  {
    if n < 10 then [DigitChar(n)] else Decimal(n / 10) + [DigitChar(n % 10)]
  }

  /** `%d`. */
  function IntText(n: int): string {
    if n < 0 then "-" + Decimal(-n) else Decimal(n)
  }

  /** `%04zu`. */
  function Padded(n: nat): string {
    var s := Decimal(n);
    if |s| < 4 then seq(4 - |s|, _ => '0') + s else s
  }

  /** `rsm_dump_operand`. */
  function OperandText(o: Operand): string {
    match o
    case NoOperand => "none"
    case Imm(n) => IntText(n)
    case RegOperand(r) => RegName(r)
    case LabelOperand(name) => name
    case Mem(MemImm(n)) => "[" + IntText(n) + "]"
    case Mem(MemReg(r)) => "[" + RegName(r) + "]"
    case Mem(MemLabel(name)) => "[" + name + "]"
    case Mem(MemNone) => "[" + "?" + "]"
    case InvalidOperand => "invalid"
  }

  /** The body of a line of `rsm_program_dump_instrs`, after the index. */
  function InstrText(i: Instr): string {
    OpcodeName(i.opcode) + " "
    + (if i.opr1 != NoOperand then OperandText(i.opr1) else "")
    + (if i.opr2 != NoOperand then ", " + OperandText(i.opr2) else "")
  }

  function DumpLine(index: nat, i: Instr): string {
    "[" + Padded(index) + "] " + InstrText(i) + "\n"
  }

  function DumpLines(instrs: seq<Instr>): string {
    if instrs == [] then ""
    else DumpLines(instrs[..|instrs| - 1]) + DumpLine(|instrs| - 1, instrs[|instrs| - 1])
  }

  /** `rsm_program_dump_instrs`, with what it prints as the result. */
  method DumpInstrs(p: Program) returns (out: string)
    ensures out == "=== PROGRAM INSTRUCTIONS (" + Decimal(|p.instrs|) + ") ===\n" + DumpLines(p.instrs)
  {
    hide Decimal, Padded, OperandText, OpcodeName;
    var header := "=== PROGRAM INSTRUCTIONS (" + Decimal(|p.instrs|) + ") ===\n";
    out := header;
    for k := 0 to |p.instrs|
      invariant out == header + DumpLines(p.instrs[..k])
    {
      var line := DumpBody(p.instrs[k]);
      line := "[" + Padded(k) + "] " + line + "\n";
      assert p.instrs[..k + 1][..k] == p.instrs[..k];
      assert out + line == header + (DumpLines(p.instrs[..k]) + line);
      out := out + line;
    }
    assert p.instrs[..|p.instrs|] == p.instrs;
  }

  method DumpBody(i: Instr) returns (out: string)
    ensures out == InstrText(i)
  {
    hide OperandText, OpcodeName;
    out := OpcodeName(i.opcode) + " ";
    if i.opr1 != NoOperand {
      out := out + OperandText(i.opr1);
    }
    if i.opr2 != NoOperand {
      ghost var before := out;
      out := out + ", ";
      out := out + OperandText(i.opr2);
      assert out == before + (", " + OperandText(i.opr2));
    }
  }

  // ---- a program as source text ----

  function ItemText(item: Item): string {
    match item
    case Declare(name) => name + ":"
    case Execute(i) => InstrText(i)
    case LineEnd => "\n"
  }

  function ItemsText(items: seq<Item>): string {
    if items == [] then "" else ItemText(items[0]) + ItemsText(items[1..])
  }

  /** The lines from instruction i and label j on: each label on a line of its
      own before the instruction it names. */
  function LinesFrom(p: Program, i: nat, j: nat): seq<Item>
    requires i <= |p.instrs| && j <= |p.labels|
    decreases |p.instrs| - i, |p.labels| - j
  {
    if j < |p.labels| && p.labels[j].address <= i then
      [Declare(p.labels[j].name), LineEnd] + LinesFrom(p, i, j + 1)
    else if i < |p.instrs| then
      [Execute(p.instrs[i]), LineEnd] + LinesFrom(p, i + 1, j)
    else []
  }

  function ListingOf(p: Program): string { ItemsText(LinesFrom(p, 0, 0)) }
}
