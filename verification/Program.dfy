/** The assembler's program store (rocketasm/program.c): instructions with
    symbolic operands, the label table, and the listing printer. */
module ProgramStore {
  import opened Isa

  datatype MemRef = MemNone | MemImm(imm: Int32) | MemReg(reg: Reg) | MemLabel(name: string)

  datatype Operand =
    | NoOperand
    | Imm(imm: Int32)
    | RegOperand(reg: Reg)
    | LabelOperand(name: string)
    | Mem(mem: MemRef)
    | InvalidOperand

  datatype Instr = Instr(opcode: Opcode, opr1: Operand, opr2: Operand)

  datatype Label = Label(name: string, address: Word)

  /** The contents of an `rsm_program_t`. */
  datatype Program = Program(instrs: seq<Instr>, labels: seq<Label>)

  const EMPTY := Program([], [])

  /** The address of the first label with this name, or -1. */
  function FindLabel(labels: seq<Label>, name: string): int {
    if labels == [] then -1
    else if labels[0].name == name then labels[0].address
    else FindLabel(labels[1..], name)
  }

  /** Lookup fails exactly on names that are not declared. */
  lemma {:induction false} FindLabelFails(labels: seq<Label>, name: string)
    ensures FindLabel(labels, name) == -1 <==> forall i :: 0 <= i < |labels| ==> labels[i].name != name
    ensures FindLabel(labels, name) == -1 || 0 <= FindLabel(labels, name) < 0x10000
  {
    if labels != [] {
      FindLabelFails(labels[1..], name);
      if labels[0].name != name {
        assert forall i :: 1 <= i < |labels| ==> labels[i] == labels[1..][i - 1];
      }
    }
  }

  /** Lookup finds the first declaration. */
  lemma {:induction false} FindLabelFirst(labels: seq<Label>, name: string, k: nat)
    requires k < |labels| && labels[k].name == name
    requires forall i :: 0 <= i < k ==> labels[i].name != name
    ensures FindLabel(labels, name) == labels[k].address
  {
    if k > 0 {
      assert labels[0].name != name;
      FindLabelFirst(labels[1..], name, k - 1);
    }
  }

  /** The label table that parsing keeps: addresses in order, none past the
      instructions. */
  ghost predicate LabelsInOrder(labels: seq<Label>, count: nat) {
    && (forall i, j :: 0 <= i < j < |labels| ==> labels[i].address <= labels[j].address)
    && (forall i :: 0 <= i < |labels| ==> labels[i].address <= count)
  }

  /** With addresses in order, the first declaration is the lowest one. */
  lemma FindLabelLowest(labels: seq<Label>, count: nat, name: string)
    requires LabelsInOrder(labels, count)
    ensures forall i :: 0 <= i < |labels| && labels[i].name == name ==> FindLabel(labels, name) <= labels[i].address
    ensures FindLabel(labels, name) <= count
  {
    if labels != [] {
      var rest := labels[1..];
      assert LabelsInOrder(rest, count);
      FindLabelLowest(rest, count, name);
      forall i | 0 <= i < |labels| && labels[i].name == name
        ensures FindLabel(labels, name) <= labels[i].address
      {
        if i > 0 { assert rest[i - 1] == labels[i]; }
      }
    }
  }

  // ---- the growable arrays ----

  /** The capacity after growing by doubling from 1024. */
  ghost predicate Grown(count: nat, capacity: nat) {
    count <= capacity && (capacity == 1024 || capacity < 2 * count)
  }

  class ProgramBuilder {
    var instrs: array<Instr>
    var instrCount: nat
    var labels: array<Label>
    var labelCount: nat

    ghost predicate Valid()
      reads this
    {
      Grown(instrCount, instrs.Length) && Grown(labelCount, labels.Length)
    }

    ghost function Contents(): Program
      requires Valid()
      reads this, instrs, labels
    {
      Program(instrs[..instrCount], labels[..labelCount])
    }

    /** The objects a push may write. */
    ghost function Repr(): set<object>
      reads this
    {
      {this, instrs, labels}
    }

    constructor ()
      ensures Valid() && fresh(Repr())
      ensures Contents() == EMPTY
    {
      instrs := new Instr[1024](_ => Instr(MOV, NoOperand, NoOperand));
      labels := new Label[1024](_ => Label("", 0));
      instrCount, labelCount := 0, 0;
      new;
      assert instrs[..0] == [] && labels[..0] == [];
    }

    /** `rsm_program_push_instr`, growing by a copy into twice the space. */
    method PushInstr(instr: Instr)
      requires Valid()
      modifies this, instrs
      ensures Valid() && fresh(Repr() - old(Repr()))
      ensures labels == old(labels)
      ensures Contents() == old(Program(Contents().instrs + [instr], Contents().labels))
    {
      if instrCount >= instrs.Length {
        var bigger := new Instr[instrs.Length * 2](_ => instr);
        for i := 0 to instrCount
          modifies bigger
          invariant bigger[..i] == instrs[..i]
        {
          bigger[i] := instrs[i];
          assert bigger[..i + 1] == bigger[..i] + [instrs[i]];
          assert instrs[..i + 1] == instrs[..i] + [instrs[i]];
        }
        instrs := bigger;
      }
      assert instrs[..instrCount] == old(instrs[..instrCount]);
      instrs[instrCount] := instr;
      instrCount := instrCount + 1;
      assert instrs[..instrCount] == instrs[..instrCount - 1] + [instr];
    }

    method PushLabel(decl: Label)
      requires Valid()
      modifies this, labels
      ensures Valid() && fresh(Repr() - old(Repr()))
      ensures instrs == old(instrs)
      ensures Contents() == old(Program(Contents().instrs, Contents().labels + [decl]))
    {
      if labelCount >= labels.Length {
        var bigger := new Label[labels.Length * 2](_ => decl);
        for i := 0 to labelCount
          modifies bigger
          invariant bigger[..i] == labels[..i]
        {
          bigger[i] := labels[i];
          assert bigger[..i + 1] == bigger[..i] + [labels[i]];
          assert labels[..i + 1] == labels[..i] + [labels[i]];
        }
        labels := bigger;
      }
      assert labels[..labelCount] == old(labels[..labelCount]);
      labels[labelCount] := decl;
      labelCount := labelCount + 1;
      assert labels[..labelCount] == labels[..labelCount - 1] + [decl];
    }

    /** `rsm_program_find_label_address`: a linear search. */
    method FindLabelAddress(name: string) returns (address: int)
      requires Valid()
      ensures address == FindLabel(Contents().labels, name)
    {
      ghost var table := Contents().labels;
      assert table[0..] == table;
      for i := 0 to labelCount
        invariant FindLabel(table, name) == FindLabel(table[i..], name)
      {
        assert table[i..][0] == labels[i] && table[i..][1..] == table[i + 1..];
        if labels[i].name == name {
          return labels[i].address;
        }
      }
      address := -1;
    }
  }
}
