/** The assembler from source text to image (rocketasm/main.c), and the machine
    on that image. */
module Pipeline {
  import opened Isa
  import opened Options
  import opened Machine
  import opened Lexing
  import opened ProgramStore
  import opened Grammar
  import opened Parsing
  import opened Encoder
  import opened Symbolic
  import opened Simulation
  import opened Listing
  import opened RoundTrip
  import opened Names
  import opened Agreement
  import opened WordFormat

  /** Every jump label operand, first or second, is declared. */
  ghost predicate Resolved(p: Program) {
    forall i, name ::
      (0 <= i < |p.instrs| && (p.instrs[i].opr1 == LabelOperand(name) || p.instrs[i].opr2 == LabelOperand(name)))
      ==> exists k :: 0 <= k < |p.labels| && p.labels[k].name == name
  }

  /** The image of a source text: it parses, its jump labels are declared, and
      every instruction encodes. */
  ghost predicate HasImage(text: string, image: seq<Byte>) {
    && Parse(text).ok && Resolved(Parse(text).program)
    && exists words :: Assembles(Parse(text).program, words) && image == Image(words)
  }

  /** The steps of the assembler's main function.  `None` stands for its error
      exits and for a stop by an assert. */
  method Assemble(text: string) returns (image: Option<seq<Byte>>)
    ensures image.Some? ==> HasImage(text, image.value)
    ensures image.None? ==> forall other :: !HasImage(text, other)
  {
    hide Parse, ParseFrom, Tokens, Image, EncodeInstr;
    var lexer := new Lexer(text);
    var parser := new Parser();
    var store := new ProgramBuilder();
    assert text[0..] == text;
    var status := parser.Parse(lexer, store);
    ParseMeans(text);
    if status == -1 {
      return None;
    }
    var p := Program(store.instrs[..store.instrCount], store.labels[..store.labelCount]);
    assert p == Parse(text).program;
    status := ResolveLabels(p);
    if status == -1 {
      return None;
    }
    var emitted, bytes := EmitBinary(p);
    ghost var words :| EndsAfter(p, words, emitted) && bytes == Image(words);
    if emitted != Done {
      return None;
    }
    assert Assembles(p, words);
    image := Some(bytes);
  }

  lemma ParseMeans(text: string)
    ensures Parse(text) == ParseFrom(Tokens(text), EMPTY)
  {
  }

  /** From text to machine: load the image of a source text and run it; for as
      long as the run stays in the program and keeps off code and stack as data,
      n cycles agree with n steps of the parsed program. */
  lemma SourceCorrect(text: string, words: seq<Word>, n: nat)
    requires Parse(text).ok && Assembles(Parse(text).program, words) && |words| <= 16383
    requires forall k :: 0 <= k < n ==>
               !LeavesModel(Parse(text).program, Run(Load(Initial(), Image(words)), k))
    ensures var p := Parse(text).program;
            && SymRun(p, SymInitial(), n).Some?
            && Agree(p, words, Run(Load(Initial(), Image(words)), n), SymRun(p, SymInitial(), n).value)
  {
    hide Run, SymRun, Agree, LeavesModel, EncodesTo, ParseFrom, Tokens;
    LabelTableOrdered(Tokens(text), EMPTY);
    AssemblerCorrect(Parse(text).program, words, n);
  }

  /** A text and the listing of its program have the same images. */
  lemma ListingHasSameImage(text: string, image: seq<Byte>)
    requires Parse(text).ok
    ensures HasImage(ListingOf(Parse(text).program), image) <==> HasImage(text, image)
  {
    hide Parse, ListingOf;
    ListingIsCanonical(text);
  }

  /** A text has an image exactly when it parses, every jump label operand is
      declared, and no instruction has a numeric target, an undefined label or a
      label out of reach. */
  lemma ImageExactly(text: string, p: Program)
    requires p == Parse(text).program
    ensures (exists image :: HasImage(text, image)) <==>
            (&& Parse(text).ok
             && (forall i, name ::
                   (0 <= i < |p.instrs|
                    && (p.instrs[i].opr1 == LabelOperand(name) || p.instrs[i].opr2 == LabelOperand(name)))
                   ==> exists k :: 0 <= k < |p.labels| && p.labels[k].name == name)
             && (forall k :: 0 <= k < |p.instrs| ==>
                   !NumericTarget(p.instrs[k]) && !Undefined(p, p.instrs[k]) && !OutOfReach(p, p.instrs[k], k)))
  {
    hide Parse, NumericTarget, Undefined, OutOfReach, Image, EncodesTo;
    ParsedIsPrintable(text);
    InstrsWritable(p);
    AssemblesExactly(p);
    assert (forall k :: 0 <= k < |p.instrs| ==> Encodable(p, k)) <==>
           (forall k :: 0 <= k < |p.instrs| ==>
             !NumericTarget(p.instrs[k]) && !Undefined(p, p.instrs[k]) && !OutOfReach(p, p.instrs[k], k)) by {
      forall k | 0 <= k < |p.instrs|
        ensures Encodable(p, k) <==>
                  !NumericTarget(p.instrs[k]) && !Undefined(p, p.instrs[k]) && !OutOfReach(p, p.instrs[k], k)
      {
      }
    }
    if Parse(text).ok && Resolved(p) && exists words :: Assembles(p, words) {
      var words :| Assembles(p, words);
      assert HasImage(text, Image(words));
    }
  }

  lemma InstrsWritable(p: Program)
    requires PrintableProgram(p)
    ensures forall i :: i in p.instrs ==> WritableInstr(i)
  {
  }

  // ---- a jump that the assembler gets wrong ----

  /** RET everywhere but for a jump at index 1, to a label after the end. */
  function FarProgram(): Program {
    Program(seq(0x8002, k => if k == 1 then Instr(JMP, LabelOperand("far"), NoOperand)
                             else Instr(RET, NoOperand, NoOperand)),
            [Label("far", 0x8002)])
  }

  lemma FarIsValidName()
    ensures ValidName("far")
  {
    hide TokenizeOpcode, TokenizeReg;
    forall op: Opcode
      ensures TokenizeOpcode("far") != Some(op)
    {
      OpcodeRecognised("far", op);
      assert |OpcodeName(op)| == 3 ==> !CaseVariant('f', OpcodeName(op)[0]);
    }
    forall r: Reg
      ensures TokenizeReg("far") != Some(r)
    {
      RegRecognised("far", r);
      assert !CaseVariant('f', RegName(r)[0]);
    }
  }

  lemma FarIsPrintable()
    ensures PrintableProgram(FarProgram())
  {
    hide ValidName;
    FarIsValidName();
    var p := FarProgram();
    assert FindLabel(p.labels, "far") == 0x8002;
    forall i | i in p.instrs
      ensures PrintableInstr(i)
    {
    }
  }

  lemma FarEncodes()
    ensures FindLabel(FarProgram().labels, "far") == 0x8002
    ensures EncodeInstr(FarProgram(), FarProgram().instrs[1], 1) == Returns(0xB000)
    ensures JumpOffsetOf(0xB000) == 0
  {
    hide JumpImm;
    JumpImmValue(JMP, 0);
  }

  lemma FarIsEncodable(k: nat)
    requires k < |FarProgram().instrs|
    ensures Encodable(FarProgram(), k)
    ensures forall name ::
              (FarProgram().instrs[k].opr1 == LabelOperand(name) || FarProgram().instrs[k].opr2 == LabelOperand(name))
              ==> name == "far"
  {
    hide EncodeInstr, PrintableInstr;
    FarEncodes();
    FarIsPrintable();
    var i := FarProgram().instrs[k];
    assert WritableInstr(i);
    if k == 1 { EncoderRefuses(FarProgram(), i, k); }
  }

  lemma FarHasImage(text: string)
    requires Parse(text) == ParseResult(true, FarProgram())
    ensures exists image :: HasImage(text, image)
  {
    hide Parse, NumericTarget, Undefined, OutOfReach, HasImage, FarProgram;
    var p := FarProgram();
    assert |p.labels| == 1 && p.labels[0].name == "far" by { FarLabel(); }
    forall k | 0 <= k < |p.instrs|
      ensures !NumericTarget(p.instrs[k]) && !Undefined(p, p.instrs[k]) && !OutOfReach(p, p.instrs[k], k)
      ensures forall name ::
                (p.instrs[k].opr1 == LabelOperand(name) || p.instrs[k].opr2 == LabelOperand(name)) ==> name == "far"
    {
      FarIsEncodable(k);
    }
    ImageExactly(text, p);
  }

  lemma FarLabel()
    ensures FarProgram().labels == [Label("far", 0x8002)]
  {
  }

  /** There is a text that the assembler accepts and turns into an image in which
      a jump to a label 32768 instructions further on goes to the next
      instruction instead. */
  lemma FarJumpIsCut() returns (text: string)
    ensures Parse(text) == ParseResult(true, FarProgram())
    ensures exists image :: HasImage(text, image)
    ensures Displacement(FindLabel(FarProgram().labels, "far"), 1) == 0x10000
    ensures EncodeInstr(FarProgram(), FarProgram().instrs[1], 1) == Returns(0xB000)
    ensures JumpOffsetOf(0xB000) == 0
  {
    hide Parse, PrintableProgram, EncodeInstr, JumpOffsetOf, NumericTarget, Undefined, OutOfReach, HasImage, ListingOf;
    FarIsPrintable();
    text := ListingOf(FarProgram());
    ListingParses(FarProgram());
    FarEncodes();
    FarHasImage(text);
  }
}
