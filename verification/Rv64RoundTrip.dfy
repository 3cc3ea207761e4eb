/** c4c-objdump followed by c4c-as, and c4c-as followed by c4c-objdump. */
module Rv64RoundTrip {
  import opened Machine
  import opened Rv64Bits
  import opened Rv64Isa
  import opened Rv64Emitted
  import opened Rv64Objdump
  import opened Rv64As

  /** Names the assembler's syntax can spell, each used once. */
  ghost predicate ValidNames(o: Object)
  {
    && IsValidSymbol(o.functionName)
    && (forall l :: l in o.localLabels ==> IsValidSymbol(l.name))
    && DistinctNames(o.localLabels)
  }

  /** The labels of the printed source: the function first, then the local ones. */
  function AllLabels(o: Object): seq<ObjectLabel>
  {
    [ObjectLabel(o.functionName, 0)] + o.localLabels
  }

  // -------------------------------------------------------- decoded lines

  lemma {:induction false} DecodedLineAt(o: Object, at: nat, i: nat)
    requires at <= |o.text| && DecodeFrom(o, at).Ok? && i < |DecodeFrom(o, at).value|
    ensures var line := DecodeFrom(o, at).value[i]; DecodeAt(o, line.offset) == Ok(line.instruction)
    decreases |o.text| - at
  {
    hide DecodeAt;
    var d := DecodeAt(o, at).value;
    DecodeAtFits(o, at);
    if i > 0 {
      DecodedLineAt(o, at + Size(d), i - 1);
    }
  }

  lemma DecodedCoherent(o: Object, at: nat)
    requires at <= |o.text| && DecodeFrom(o, at).Ok?
    ensures forall i :: 0 <= i < |DecodeFrom(o, at).value| ==> Coherent(DecodeFrom(o, at).value[i].instruction)
  {
    hide DecodeAt, Coherent;
    var lines := DecodeFrom(o, at).value;
    forall i | 0 <= i < |lines|
      ensures Coherent(lines[i].instruction)
    {
      DecodedLineAt(o, at, i);
      DecodeAtCoherent(o, lines[i].offset);
    }
  }

  function Header(name: string): seq<SourceLine>
  {
    [TextDirective, Globl(name), LabelLine(name)]
  }

  lemma HeaderPositions(name: string, body: seq<SourceLine>)
    ensures LabelPositions(Header(name) + body, 0) == [ObjectLabel(name, 0)] + LabelPositions(body, 0)
  {
    var src := Header(name) + body;
    assert src[1..] == [Globl(name), LabelLine(name)] + body;
    assert src[1..][1..] == [LabelLine(name)] + body;
    PositionsAfterLabel(name, body, 0);
  }

  lemma DecodeParts(o: Object)
    requires Decode(o).Ok?
    ensures DecodeFrom(o, 0) == Decode(o)
    ensures forall l :: l in o.localLabels ==> Placed(l, Decode(o).value, |o.text|)
  {
    hide DecodeFrom;
  }

  /** Each local label is printed exactly once, at its own offset. */
  lemma LabelsPrintedOnce(o: Object)
    requires Extracted(o) && Decode(o).Ok?
    ensures LabelPositions(Print(o, Decode(o).value), 0) == AllLabels(o)
  {
    hide DecodeFrom, Decode, Coherent, PrintBody, LabelPositions, Placed;
    var lines := Decode(o).value;
    DecodeParts(o);
    DecodeLossless(o, 0);
    DecodedCoherent(o, 0);
    PrintedOnce(lines, o.localLabels, 0, |o.text|);
    HeaderPositions(o.functionName, PrintBody(lines, o.localLabels, |o.text|));
  }

  // ---------------------------------------------------- one instruction back

  lemma ParseShape(m: Mnemonic, operands: seq<Operand>)
    requires ParseLine(m, operands).Some?
    ensures var line := ParseLine(m, operands).value;
            && (line.BranchLine? <==> m.BranchM?) && (line.JumpLine? <==> m.JAL?)
            && (line.BranchLine? ==> |operands| == 3 && operands[2] == Sym(line.targetLabel))
            && (line.JumpLine? ==> |operands| == 2 && operands[1] == Sym(line.targetLabel))
  {
    hide RSpec, ISpec, ShiftSpec, LoadSpec, StoreSpec, USpec, BranchSpec, Signed, WordOf, IsValidSymbol;
  }

  lemma ReparseShape(d: Decoded)
    requires Coherent(d) && Reparse(d).Some?
    ensures (Reparse(d).value.BranchLine? || Reparse(d).value.JumpLine?) <==> IsControlFlow(d)
    ensures IsControlFlow(d) ==> Reparse(d).value.targetLabel == d.targetLabel
  {
    hide ParseLine;
    ParseShape(PrintMnemonic(d), PrintOperands(d));
  }

  lemma TargetIsValid(o: Object, target: nat)
    requires ValidNames(o) && LabelForOffset(o, target).Some?
    ensures IsValidSymbol(LabelForOffset(o, target).value)
    ensures ObjectLabel(LabelForOffset(o, target).value, target) in AllLabels(o)
  {
    if target == 0 {
      assert AllLabels(o)[0] == ObjectLabel(o.functionName, 0);
    } else {
      var l := ObjectLabel(FirstLabelAt(o.localLabels, target).value, target);
      var i :| 0 <= i < |o.localLabels| && o.localLabels[i] == l;
      assert AllLabels(o)[i + 1] == l;
    }
  }

  lemma {:induction false} FindLabelUnique(labels: seq<ObjectLabel>, l: ObjectLabel)
    requires DistinctNames(labels) && l in labels
    ensures FindLabel(labels, l.name) == Some(l.offset)
  {
    var i :| 0 <= i < |labels| && labels[i] == l;
    if i > 0 {
      assert labels[1..][i - 1] == l;
      FindLabelUnique(labels[1..], l);
    }
  }

  lemma AllDistinct(o: Object)
    requires Extracted(o) && ValidNames(o)
    ensures DistinctNames(AllLabels(o))
  {
    var all := AllLabels(o);
    forall i, j | 0 <= i < j < |all|
      ensures all[i].name != all[j].name
    {
      assert all[j] == o.localLabels[j - 1];
      if i > 0 {
        assert all[i] == o.localLabels[i - 1];
      }
    }
  }

  /** The instruction at `at`, with valid names, assembles back to its bytes. */
  lemma DecodedReassembles(o: Object, at: nat)
    requires ValidNames(o) && DecodeAt(o, at).Ok?
    ensures at + Size(DecodeAt(o, at).value) <= |o.text|
    ensures Reassembled(DecodeAt(o, at).value) == Some(o.text[at..at + Size(DecodeAt(o, at).value)])
    ensures var d := DecodeAt(o, at).value;
            IsControlFlow(d) ==>
              0 <= at + d.immediate && ObjectLabel(d.targetLabel, at + d.immediate) in AllLabels(o)
  {
    hide Reassembled, DecodeInsnD, DecodeWord, Le32, Le64, ReadU32, ReadU64, IsValidSymbol;
    DecodeAtFits(o, at);
    if at + 8 <= |o.text| && DecodeInsnD(ReadU64(o.text, at)).Some? {
      InsnDRoundTrip(ReadU64(o.text, at));
      InsnDIsInsnD(ReadU64(o.text, at));
      Le64Reads(o.text, at);
    } else {
      var w := ReadU32(o.text, at);
      var d := DecodeWord(w).value;
      WordIsFourBytes(w);
      Le32Reads(o.text, at);
      if IsControlFlow(d) {
        TargetIsValid(o, at + d.immediate);
        WordRoundTrip(w, LabelForOffset(o, at + d.immediate).value);
      } else {
        WordRoundTrip(w, "f");
      }
    }
  }

  function AsmLineOf(d: Decoded): AsmLine
  {
    if Reparse(d).Some? then Reparse(d).value else RetLine
  }

  /** What label resolution makes of that instruction. */
  lemma LineResolves(o: Object, at: nat)
    requires Extracted(o) && ValidNames(o) && DecodeAt(o, at).Ok?
    ensures var d := DecodeAt(o, at).value;
            && Reparse(d).Some?
            && at + Size(d) <= |o.text|
            && var r := Resolved(AllLabels(o), AsmInstruction(at, AsmLineOf(d)));
               r.Done? && EncodeLine(r.value.line) == Some(o.text[at..at + Size(d)])
  {
    hide DecodeAt, Reparse, EncodeLine, IsValidSymbol;
    var d := DecodeAt(o, at).value;
    DecodeAtCoherent(o, at);
    DecodedReassembles(o, at);
    ReparseShape(d);
    if IsControlFlow(d) {
      AllDistinct(o);
      FindLabelUnique(AllLabels(o), ObjectLabel(d.targetLabel, at + d.immediate));
    }
  }

  // ------------------------------------------------------- the whole source

  /** The parsed instructions of decoded lines. */
  function AsmInstructions(lines: seq<DecodedLine>): seq<AsmInstruction>
  {
    if lines == [] then []
    else [AsmInstruction(lines[0].offset, AsmLineOf(lines[0].instruction))] + AsmInstructions(lines[1..])
  }

  lemma {:induction false} BodyInstructions(lines: seq<DecodedLine>, labels: seq<ObjectLabel>, at: nat, size: nat)
    requires Tiles(lines, at, size)
    requires forall i :: 0 <= i < |lines| ==> Coherent(lines[i].instruction) && Reparse(lines[i].instruction).Some?
    ensures InstructionsFrom(PrintBody(lines, labels, size), at) == AsmInstructions(lines)
    ensures GloblSymbols(PrintBody(lines, labels, size)) == []
    decreases |lines|, |labels|
  {
    hide Reparse, Coherent, ParseLine, PrintMnemonic, PrintOperands, MnemonicSize, AsmLineOf;
    var src := PrintBody(lines, labels, size);
    if labels != [] && labels[0].offset == NextOffset(lines, size) {
      BodyInstructions(lines, labels[1..], at, size);
      assert src[1..] == PrintBody(lines, labels[1..], size);
    } else if lines != [] {
      BodyInstructions(lines[1..], labels, at + Size(lines[0].instruction), size);
      assert src[1..] == PrintBody(lines[1..], labels, size);
      FirstInstruction(lines[0].instruction, src, at);
    }
  }

  lemma FirstInstruction(d: Decoded, src: seq<SourceLine>, at: nat)
    requires src != [] && src[0] == InstructionLine(d) && Coherent(d) && Reparse(d).Some?
    ensures InstructionsFrom(src, at) == [AsmInstruction(at, AsmLineOf(d))] + InstructionsFrom(src[1..], at + Size(d))
  {
    hide ParseLine;
  }

  /** Every printed line is legal when the names are and the instructions parse. */
  lemma {:induction false} BodyLegal(lines: seq<DecodedLine>, labels: seq<ObjectLabel>, size: nat)
    requires forall i :: 0 <= i < |lines| ==> Reparse(lines[i].instruction).Some?
    requires forall l :: l in labels ==> IsValidSymbol(l.name)
    ensures forall i :: 0 <= i < |PrintBody(lines, labels, size)| ==> LegalLine(PrintBody(lines, labels, size)[i])
    decreases |lines|, |labels|
  {
    hide Reparse, LegalLine, IsValidSymbol;
    if labels != [] && labels[0].offset == NextOffset(lines, size) {
      BodyLegal(lines, labels[1..], size);
      LegalLabel(labels[0].name);
    } else if lines != [] {
      BodyLegal(lines[1..], labels, size);
      LegalInstruction(lines[0].instruction);
    }
  }

  lemma LegalLabel(name: string)
    requires IsValidSymbol(name)
    ensures LegalLine(LabelLine(name))
  {
  }

  lemma LegalInstruction(d: Decoded)
    requires Reparse(d).Some?
    ensures LegalLine(InstructionLine(d))
  {
  }

  lemma {:induction false} PositionsLegal(src: seq<SourceLine>, at: nat)
    requires forall i :: 0 <= i < |src| ==> LegalLine(src[i])
    ensures forall l :: l in LabelPositions(src, at) ==> IsValidSymbol(l.name)
  {
    hide IsValidSymbol, ParseLine;
    if src != [] {
      var size := if src[0].Instruction? then MnemonicSize(src[0].mnemonic) else 0;
      PositionsLegal(src[1..], at + size);
      assert LegalLine(src[0]);
    }
  }

  /** Label resolution and encoding give back the text from `at` on. */
  lemma {:induction false} AssembleBack(o: Object, at: nat)
    requires Extracted(o) && ValidNames(o) && at <= |o.text| && DecodeFrom(o, at).Ok?
    ensures forall i :: 0 <= i < |DecodeFrom(o, at).value| ==> Reparse(DecodeFrom(o, at).value[i].instruction).Some?
    ensures var r := ResolveAll(AllLabels(o), AsmInstructions(DecodeFrom(o, at).value));
            r.Done? && EncodeAll(r.value) == Done(o.text[at..])
    decreases |o.text| - at
  {
    hide DecodeAt, Reparse, EncodeLine, ValidNames, AsmLineOf, AllLabels, Resolved;
    if at == |o.text| {
      assert o.text[at..] == [];
    } else {
      var d := DecodeAt(o, at).value;
      LineResolves(o, at);
      var rest := DecodeFrom(o, at + Size(d)).value;
      AssembleBack(o, at + Size(d));
      assert ([DecodedLine(at, d)] + rest)[1..] == rest;
      ResolveFirst(o, at, AsmInstruction(at, AsmLineOf(d)), AsmInstructions(rest), at + Size(d));
    }
  }

  lemma ResolveFirst(o: Object, at: nat, ins: AsmInstruction, rest: seq<AsmInstruction>, next: nat)
    requires at <= next <= |o.text| && Resolved(AllLabels(o), ins).Done? && ResolveAll(AllLabels(o), rest).Done?
    requires EncodeLine(Resolved(AllLabels(o), ins).value.line) == Some(o.text[at..next])
    requires EncodeAll(ResolveAll(AllLabels(o), rest).value) == Done(o.text[next..])
    ensures var r := ResolveAll(AllLabels(o), [ins] + rest);
            r.Done? && EncodeAll(r.value) == Done(o.text[at..])
  {
    hide Resolved, EncodeLine, AllLabels;
    assert ([ins] + rest)[1..] == rest;
    var first, later := Resolved(AllLabels(o), ins).value, ResolveAll(AllLabels(o), rest).value;
    assert ([first] + later)[1..] == later;
    assert o.text[at..next] + o.text[next..] == o.text[at..];
  }

  lemma {:induction false} WithoutAbsent(labels: seq<ObjectLabel>, name: string)
    requires forall l :: l in labels ==> l.name != name
    ensures Without(labels, name) == labels
  {
    if labels != [] {
      WithoutAbsent(labels[1..], name);
      assert labels[0] in labels;
    }
  }

  /** What the printed source says, line kind by line kind. */
  lemma PrintedSource(o: Object)
    requires Extracted(o) && ValidNames(o) && Decode(o).Ok?
    ensures var src := Print(o, Decode(o).value);
            && Legal(src)
            && GloblSymbols(src) == [o.functionName]
            && InstructionsFrom(src, 0) == AsmInstructions(Decode(o).value)
  {
    hide DecodeFrom, Decode, Coherent, Reparse, PrintBody, AsmInstructions, LegalLine, IsValidSymbol;
    var lines := Decode(o).value;
    DecodeParts(o);
    DecodeLossless(o, 0);
    DecodedCoherent(o, 0);
    AssembleBack(o, 0);
    BodyInstructions(lines, o.localLabels, 0, |o.text|);
    BodyLegal(lines, o.localLabels, |o.text|);
    LabelsPrintedOnce(o);
    AllDistinct(o);
    HeaderRest(o.functionName, PrintBody(lines, o.localLabels, |o.text|));
  }

  lemma HeaderRest(name: string, body: seq<SourceLine>)
    ensures GloblSymbols(Header(name) + body) == [name] + GloblSymbols(body)
    ensures InstructionsFrom(Header(name) + body, 0) == InstructionsFrom(body, 0)
    ensures TextFirst(Header(name) + body)
    ensures IsValidSymbol(name) ==> LegalLine(TextDirective) && LegalLine(Globl(name)) && LegalLine(LabelLine(name))
  {
    hide IsValidSymbol;
    var one, two := [LabelLine(name)] + body, [Globl(name), LabelLine(name)] + body;
    assert one[1..] == body && two[1..] == one && (Header(name) + body)[1..] == two;
    assert InstructionsFrom(two, 0) == InstructionsFrom(one, 0) == InstructionsFrom(body, 0);
    assert GloblSymbols(two) == [name] + GloblSymbols(one) && GloblSymbols(one) == GloblSymbols(body);
  }

  /** Reassembling a disassembly with valid names gives the object back. */
  lemma DisassemblyAssembles(o: Object)
    requires Extracted(o) && ValidNames(o) && Decode(o).Ok?
    ensures Assemble(Print(o, Decode(o).value)) == Done(o)
  {
    hide DecodeFrom, Decode, Legal, LabelPositions, InstructionsFrom, GloblSymbols, IsValidSymbol, Reparse, Parse,
         Print;
    var src := Print(o, Decode(o).value);
    PrintedSource(o);
    LabelsPrintedOnce(o);
    ParseExact(src);
    DecodeParts(o);
    AssembleBack(o, 0);
    assert o.text[0..] == o.text;
    WithoutAbsent(o.localLabels, o.functionName);
    assert AllLabels(o)[1..] == o.localLabels;
  }

  lemma NamesFromDistinct(o: Object)
    requires DistinctNames(AllLabels(o))
    requires forall l :: l in AllLabels(o) ==> IsValidSymbol(l.name)
    ensures ValidNames(o)
  {
    hide IsValidSymbol;
    var all := AllLabels(o);
    assert all[0] in all;
    forall i | 0 <= i < |o.localLabels|
      ensures IsValidSymbol(o.localLabels[i].name)
    {
      assert all[i + 1] == o.localLabels[i];
    }
    forall i, j | 0 <= i < j < |o.localLabels|
      ensures o.localLabels[i].name != o.localLabels[j].name
    {
      assert all[i + 1] == o.localLabels[i] && all[j + 1] == o.localLabels[j];
    }
  }

  /**
   Disassemble, then reassemble: c4c-as accepts the printed lines exactly when every name is a
   legal symbol used once, and it then rebuilds the very same object.
   */
  lemma DisassembleReassemble(o: Object)
    requires Extracted(o) && Decode(o).Ok?
    ensures Assemble(Print(o, Decode(o).value)).Done? <==> ValidNames(o)
    ensures ValidNames(o) ==> Assemble(Print(o, Decode(o).value)) == Done(o)
  {
    hide Decode, ValidNames, LabelPositions, IsValidSymbol, Parse, Print, LegalLine;
    var src := Print(o, Decode(o).value);
    if ValidNames(o) {
      DisassemblyAssembles(o);
    } else if Assemble(src).Done? {
      ParseExact(src);
      LabelsPrintedOnce(o);
      PositionsLegal(src, 0);
      NamesFromDistinct(o);
    }
  }

  // ------------------------------------------------ assemble, then disassemble

  lemma ReadsLe32(w: bv32)
    ensures ReadU32(Le32(w), 0) == w
  {
  }

  lemma ReadsLe64(w: bv64)
    ensures ReadU64(Le64(w), 0) == w
  {
    ReadsLe32((w & 0xffff_ffff) as bv32);
    ReadsLe32((w >> 32) as bv32);
    assert Le64(w)[4..] == Le32((w >> 32) as bv32);
  }

  lemma SliceReads(text: seq<bv8>, at: nat, bytes: seq<bv8>)
    requires at + |bytes| <= |text| && text[at..at + |bytes|] == bytes
    ensures |bytes| >= 4 ==> ReadU32(text, at) == ReadU32(bytes, 0)
    ensures |bytes| >= 8 ==> ReadU64(text, at) == ReadU64(bytes, 0)
  {
    if |bytes| >= 4 {
      SameWord(text, at, bytes, 0);
    }
    if |bytes| >= 8 {
      SameWord(text, at, bytes, 4);
    }
  }

  lemma SameWord(text: seq<bv8>, at: nat, bytes: seq<bv8>, k: nat)
    requires at + |bytes| <= |text| && text[at..at + |bytes|] == bytes && k + 4 <= |bytes|
    ensures ReadU32(text, at + k) == ReadU32(bytes, k)
  {
    assert text[at + k] == bytes[k] && text[at + k + 1] == bytes[k + 1];
    assert text[at + k + 2] == bytes[k + 2] && text[at + k + 3] == bytes[k + 3];
  }

  lemma LowOpcode(low: bv32, high: bv32)
    requires low & 0x7f != 0x3f
    ensures DecodeInsnD((low as bv64) | ((high as bv64) << 32)).None?
  {
  }

  lemma InsnDRefused(text: seq<bv8>, at: nat)
    requires at + 8 <= |text| && Opcode(ReadU32(text, at)) != 0x3f
    ensures DecodeInsnD(ReadU64(text, at)).None?
  {
    hide DecodeInsnD, ReadU32;
    LowOpcode(ReadU32(text, at), ReadU32(text, at + 4));
  }

  lemma EncodedSize(line: AsmLine)
    requires EncodeLine(line).Some?
    ensures |EncodeLine(line).value| == LineSize(line)
  {
    hide EncodeI, EncodeR, EncodeS, EncodeU, EncodeB, EncodeJ, EncodeInsnD, WordOf;
  }

  /** Where a resolved transfer goes has a label. */
  predicate Reaches(o: Object, ins: AsmInstruction)
  {
    IsTransferLine(ins.line) ==>
      && 0 <= ins.offset + ins.line.immediate <= |o.text|
      && LabelForOffset(o, ins.offset + ins.line.immediate).Some?
  }

  /** The bytes of an emitted line decode where they stand. */
  lemma EmittedAt(o: Object, ins: AsmInstruction, bytes: seq<bv8>)
    requires Emittable(ins.line) && EncodeLine(ins.line) == Some(bytes) && Reaches(o, ins)
    requires ins.offset + |bytes| <= |o.text| && o.text[ins.offset..ins.offset + |bytes|] == bytes
    ensures DecodeAt(o, ins.offset).Ok? && Size(DecodeAt(o, ins.offset).value) == LineSize(ins.line) == |bytes|
  {
    hide Emittable, EncodeLine, DecodeInsnD, DecodeWord, ReadU32, ReadU64, Le32, Le64, WordOfLine, EncodeInsnD, Opcode;
    var line, at := ins.line, ins.offset;
    EncodedSize(line);
    SliceReads(o.text, at, bytes);
    if line.InsnDLine? {
      EmittedInsnDDecodes(line);
      var w :=
        EncodeInsnD(line.major, line.operation, line.destination, line.lhs, line.rhs, line.accumulator, line.dtype);
      ReadsLe64(w);
      InsnDIsInsnD(w);
    } else {
      EmittedWordDecodes(line);
      var w := WordOfLine(line);
      ReadsLe32(w);
      WordIsFourBytes(w);
      if at + 8 <= |o.text| {
        InsnDRefused(o.text, at);
      }
    }
  }

  predicate AsmTiles(instructions: seq<AsmInstruction>, from: nat, to: nat)
  {
    if instructions == [] then from == to
    else instructions[0].offset == from && AsmTiles(instructions[1..], from + LineSize(instructions[0].line), to)
  }

  ghost predicate SameOffsets(lines: seq<DecodedLine>, instructions: seq<AsmInstruction>)
  {
    |lines| == |instructions| && forall i :: 0 <= i < |lines| ==> lines[i].offset == instructions[i].offset
  }

  /** Emitted text decodes line for line. */
  lemma {:induction false} EmittedDecodes(o: Object, instructions: seq<AsmInstruction>, at: nat)
    requires at <= |o.text| && AsmTiles(instructions, at, |o.text|) && EncodeAll(instructions) == Done(o.text[at..])
    requires forall i :: 0 <= i < |instructions| ==> Emittable(instructions[i].line) && Reaches(o, instructions[i])
    ensures DecodeFrom(o, at).Ok? && SameOffsets(DecodeFrom(o, at).value, instructions)
    decreases |instructions|
  {
    hide Emittable, Reaches, EncodeLine, DecodeAt;
    if instructions == [] {
    } else {
      var ins, rest := instructions[0], instructions[1..];
      var bytes := EncodeLine(ins.line).value;
      var next := at + |bytes|;
      EncodedSize(ins.line);
      assert o.text[at..] == bytes + EncodeAll(rest).value;
      assert |o.text[at..]| >= |bytes|;
      assert o.text[at..next] == o.text[at..][..|bytes|] == bytes;
      assert o.text[next..] == o.text[at..][|bytes|..] == EncodeAll(rest).value;
      EmittedAt(o, ins, bytes);
      EmittedDecodes(o, rest, next);
    }
  }

  // The source's labels and instructions, seen from the object.

  function EndOf(src: seq<SourceLine>, at: nat): nat
  {
    if src == [] then at
    else EndOf(src[1..], at + if src[0].Instruction? then MnemonicSize(src[0].mnemonic) else 0)
  }

  ghost predicate StartsInstruction(instructions: seq<AsmInstruction>, offset: nat)
  {
    exists i :: 0 <= i < |instructions| && instructions[i].offset == offset
  }

  ghost predicate PlacedIn(l: ObjectLabel, instructions: seq<AsmInstruction>, from: nat, to: nat)
  {
    from <= l.offset <= to && (l.offset == to || StartsInstruction(instructions, l.offset))
  }

  lemma {:induction false} EndAfter(src: seq<SourceLine>, at: nat)
    ensures at <= EndOf(src, at)
  {
    if src != [] {
      EndAfter(src[1..], at + if src[0].Instruction? then MnemonicSize(src[0].mnemonic) else 0);
    }
  }

  lemma PlacedLater(l: ObjectLabel, first: AsmInstruction, rest: seq<AsmInstruction>, from: nat, next: nat, to: nat)
    requires PlacedIn(l, rest, next, to) && from <= next
    ensures PlacedIn(l, [first] + rest, from, to)
  {
    if l.offset != to {
      var i :| 0 <= i < |rest| && rest[i].offset == l.offset;
      assert ([first] + rest)[i + 1] == rest[i];
    }
  }

  lemma {:induction false} SourceLayout(src: seq<SourceLine>, at: nat)
    requires forall i :: 0 <= i < |src| ==> LegalLine(src[i])
    ensures AsmTiles(InstructionsFrom(src, at), at, EndOf(src, at))
    ensures forall i :: 0 <= i < |InstructionsFrom(src, at)| ==> Emittable(InstructionsFrom(src, at)[i].line)
    ensures forall l :: l in LabelPositions(src, at) ==> PlacedIn(l, InstructionsFrom(src, at), at, EndOf(src, at))
    decreases |src|
  {
    hide ParseLine, Emittable, IsValidSymbol, LineSize, MnemonicSize, PlacedIn;
    if src != [] {
      assert LegalLine(src[0]);
      if src[0].Instruction? {
        var Instruction(m, operands) := src[0];
        var rest, next := src[1..], at + MnemonicSize(m);
        SourceLayout(rest, next);
        SizesAgree(m, operands);
        ParsedEmittable(m, operands);
        var first := AsmInstruction(at, ParseLine(m, operands).value);
        assert ([first] + InstructionsFrom(rest, next))[1..] == InstructionsFrom(rest, next);
        forall l | l in LabelPositions(src, at)
          ensures PlacedIn(l, InstructionsFrom(src, at), at, EndOf(src, at))
        {
          PlacedLater(l, first, InstructionsFrom(rest, next), at, next, EndOf(src, at));
        }
      } else {
        SourceLayout(src[1..], at);
        if src[0].LabelLine? {
          FirstPlaced(ObjectLabel(src[0].name, at), src[1..], at);
        }
      }
    }
  }

  lemma FirstPlaced(l: ObjectLabel, src: seq<SourceLine>, at: nat)
    requires l.offset == at && AsmTiles(InstructionsFrom(src, at), at, EndOf(src, at))
    ensures PlacedIn(l, InstructionsFrom(src, at), at, EndOf(src, at))
  {
    hide ParseLine, LineSize, MnemonicSize;
    EndAfter(src, at);
    var instructions := InstructionsFrom(src, at);
    if instructions != [] {
      assert instructions[0].offset == at;
    }
  }

  lemma {:induction false} PositionsSorted(src: seq<SourceLine>, at: nat)
    ensures SortedLabels(LabelPositions(src, at))
    ensures forall l :: l in LabelPositions(src, at) ==> at <= l.offset
  {
    hide MnemonicSize;
    if src != [] {
      PositionsSorted(src[1..], at + if src[0].Instruction? then MnemonicSize(src[0].mnemonic) else 0);
    }
  }

  lemma {:induction false} WithoutMembers(labels: seq<ObjectLabel>, name: string)
    ensures forall l :: l in Without(labels, name) <==> l in labels && l.name != name
  {
    if labels != [] {
      WithoutMembers(labels[1..], name);
      forall l
        ensures l in Without(labels, name) <==> l in labels && l.name != name
      {
        assert l in labels <==> l == labels[0] || l in labels[1..];
      }
    }
  }

  lemma {:induction false} WithoutSorted(labels: seq<ObjectLabel>, name: string)
    requires SortedLabels(labels)
    ensures SortedLabels(Without(labels, name))
  {
    if labels != [] {
      WithoutSorted(labels[1..], name);
      WithoutMembers(labels[1..], name);
      SortedCons(labels[0], labels[1..], Without(labels[1..], name));
    }
  }

  lemma SortedCons(l: ObjectLabel, labels: seq<ObjectLabel>, kept: seq<ObjectLabel>)
    requires SortedLabels([l] + labels) && SortedLabels(kept) && forall k :: k in kept ==> k in labels
    ensures SortedLabels([l] + kept)
  {
    forall i, j | 0 <= i < j < |[l] + kept|
      ensures ([l] + kept)[i].offset <= ([l] + kept)[j].offset
    {
      if i == 0 {
        assert kept[j - 1] in labels;
        var k :| 0 <= k < |labels| && labels[k] == kept[j - 1];
        assert ([l] + labels)[0].offset <= ([l] + labels)[k + 1].offset;
      } else {
        assert kept[i - 1].offset <= kept[j - 1].offset;
      }
    }
  }

  lemma {:induction false} WithoutDistinct(labels: seq<ObjectLabel>, name: string)
    requires DistinctNames(labels)
    ensures DistinctNames(Without(labels, name))
  {
    if labels != [] {
      WithoutDistinct(labels[1..], name);
      WithoutMembers(labels[1..], name);
    }
  }

  /** Resolution keeps offsets, sizes and tables; a resolved transfer goes to a label. */
  lemma ResolvedFacts(labels: seq<ObjectLabel>, ins: AsmInstruction)
    requires Emittable(ins.line) && Resolved(labels, ins).Done?
    ensures var r := Resolved(labels, ins).value;
            && r.offset == ins.offset && LineSize(r.line) == LineSize(ins.line) && Emittable(r.line)
            && (IsTransferLine(r.line) ==> exists l :: l in labels && l.offset == r.offset + r.line.immediate)
  {
    hide EncodeLine, Emittable;
    if IsTransferLine(ins.line) {
      var target := FindLabel(labels, ins.line.targetLabel).value;
      ResolvedEmittable(ins.line, target - ins.offset);
      assert ObjectLabel(ins.line.targetLabel, target) in labels;
    }
  }

  ghost predicate GoesToLabel(labels: seq<ObjectLabel>, ins: AsmInstruction)
  {
    IsTransferLine(ins.line) ==> exists l :: l in labels && l.offset == ins.offset + ins.line.immediate
  }

  lemma {:induction false} ResolveAllFacts(labels: seq<ObjectLabel>, instructions: seq<AsmInstruction>, from: nat,
                                           to: nat)
    requires AsmTiles(instructions, from, to) && ResolveAll(labels, instructions).Done?
    requires forall i :: 0 <= i < |instructions| ==> Emittable(instructions[i].line)
    ensures var r := ResolveAll(labels, instructions).value;
            && AsmTiles(r, from, to) && |r| == |instructions|
            && (forall i :: 0 <= i < |r| ==> r[i].offset == instructions[i].offset)
            && (forall i :: 0 <= i < |r| ==> Emittable(r[i].line) && GoesToLabel(labels, r[i]))
    decreases |instructions|
  {
    hide Resolved, Emittable, LineSize, GoesToLabel;
    if instructions != [] {
      var first := Resolved(labels, instructions[0]).value;
      var rest := ResolveAll(labels, instructions[1..]).value;
      ResolvedFacts(labels, instructions[0]);
      ResolvedGoes(labels, first);
      ResolveAllFacts(labels, instructions[1..], from + LineSize(instructions[0].line), to);
      assert ([first] + rest)[1..] == rest;
    }
  }

  lemma ResolvedGoes(labels: seq<ObjectLabel>, r: AsmInstruction)
    requires IsTransferLine(r.line) ==> exists l :: l in labels && l.offset == r.offset + r.line.immediate
    ensures GoesToLabel(labels, r)
  {
  }

  lemma {:induction false} EncodedLength(instructions: seq<AsmInstruction>, from: nat, to: nat)
    requires AsmTiles(instructions, from, to) && EncodeAll(instructions).Done?
    ensures |EncodeAll(instructions).value| == to - from
    decreases |instructions|
  {
    hide EncodeLine;
    if instructions != [] {
      EncodedSize(instructions[0].line);
      EncodedLength(instructions[1..], from + LineSize(instructions[0].line), to);
    }
  }

  /** A label of the source is the function, at 0, or a local label of the object. */
  lemma LabelReached(o: Object, labels: seq<ObjectLabel>, l: ObjectLabel)
    requires DistinctNames(labels) && l in labels
    requires FindLabel(labels, o.functionName) == Some(0) && o.localLabels == Without(labels, o.functionName)
    ensures l.offset == 0 || l in o.localLabels
  {
    FindLabelUnique(labels, l);
    WithoutMembers(labels, o.functionName);
  }

  lemma LabelNamed(o: Object, l: ObjectLabel)
    requires l.offset == 0 || l in o.localLabels
    ensures LabelForOffset(o, l.offset).Some?
  {
  }

  /** The pieces of a successful assembly. */
  ghost predicate Assembled(src: seq<SourceLine>, p: Parsed, resolved: seq<AsmInstruction>, o: Object)
  {
    && Parse(src) == Done(p) && ResolveAll(p.labels, p.instructions) == Done(resolved)
    && EncodeAll(resolved) == Done(o.text) && BuildObject(p.(instructions := resolved), o.text) == Done(o)
  }

  lemma AssembledParts(src: seq<SourceLine>) returns (p: Parsed, resolved: seq<AsmInstruction>)
    requires Assemble(src).Done?
    ensures Assembled(src, p, resolved, Assemble(src).value)
  {
    hide Parse, ResolveAll, EncodeAll;
    p := Parse(src).value;
    resolved := Resolve(p).value.instructions;
  }

  /** Objects c4c-as builds satisfy what extraction promises, with legal names. */
  lemma AssembledExtracted(src: seq<SourceLine>, p: Parsed, resolved: seq<AsmInstruction>, o: Object)
    requires Assembled(src, p, resolved, o)
    ensures Extracted(o) && ValidNames(o)
    ensures EndOf(src, 0) == |o.text|
  {
    hide Parse, LegalLine, IsValidSymbol, ResolveAll, EncodeAll, InstructionsFrom, LabelPositions, GloblSymbols, EndOf;
    ParseExact(src);
    SourceLayout(src, 0);
    ResolveAllFacts(p.labels, p.instructions, 0, EndOf(src, 0));
    EncodedLength(resolved, 0, EndOf(src, 0));
    PositionsSorted(src, 0);
    PositionsLegal(src, 0);
    WithoutMembers(p.labels, o.functionName);
    WithoutSorted(p.labels, o.functionName);
    WithoutDistinct(p.labels, o.functionName);
    forall l | l in p.labels
      ensures l.offset <= |o.text|
    {
      assert PlacedIn(l, p.instructions, 0, EndOf(src, 0));
    }
  }

  /** The same object with its local labels in another order that is still sorted by offset. */
  ghost predicate Reordered(o: Object, e: Object)
  {
    && e.functionName == o.functionName && e.text == o.text
    && multiset(e.localLabels) == multiset(o.localLabels) && SortedLabels(e.localLabels)
  }

  lemma SameMembers(a: seq<ObjectLabel>, b: seq<ObjectLabel>)
    requires multiset(a) == multiset(b)
    ensures forall l :: l in a <==> l in b
  {
    forall l
      ensures l in a <==> l in b
    {
      assert l in a <==> l in multiset(a);
      assert l in b <==> l in multiset(b);
    }
  }

  lemma CountTwice(s: seq<ObjectLabel>, i: nat, j: nat)
    requires i < j < |s| && s[i] == s[j]
    ensures multiset(s)[s[i]] >= 2
  {
    assert s == s[..j] + [s[j]] + s[j + 1..];
    assert s[..j][i] in multiset(s[..j]);
  }

  lemma DistinctCount(s: seq<ObjectLabel>, l: ObjectLabel)
    requires DistinctNames(s)
    ensures multiset(s)[l] <= 1
  {
    if l in s {
      var i :| 0 <= i < |s| && s[i] == l;
      assert s == s[..i] + [l] + s[i + 1..];
      assert l !in s[..i] && l !in s[i + 1..];
    }
  }

  lemma DistinctReordered(a: seq<ObjectLabel>, b: seq<ObjectLabel>)
    requires multiset(a) == multiset(b) && DistinctNames(a)
    ensures DistinctNames(b)
  {
    SameMembers(a, b);
    forall i, j | 0 <= i < j < |b|
      ensures b[i].name != b[j].name
    {
      if b[i] == b[j] {
        CountTwice(b, i, j);
        DistinctCount(a, b[i]);
      } else {
        assert b[i] in a && b[j] in a;
      }
    }
  }

  lemma ReorderedFacts(o: Object, e: Object)
    requires Extracted(o) && ValidNames(o) && Reordered(o, e)
    ensures Extracted(e) && ValidNames(e)
    ensures forall l :: l in e.localLabels <==> l in o.localLabels
  {
    hide IsValidSymbol;
    SameMembers(o.localLabels, e.localLabels);
    DistinctReordered(o.localLabels, e.localLabels);
  }

  lemma AssembledDecodes(src: seq<SourceLine>, p: Parsed, resolved: seq<AsmInstruction>, o: Object, e: Object)
    requires Assembled(src, p, resolved, o) && Reordered(o, e)
    ensures DecodeFrom(e, 0).Ok? && SameOffsets(DecodeFrom(e, 0).value, p.instructions)
  {
    hide Parse, LegalLine, IsValidSymbol, ResolveAll, EncodeAll, InstructionsFrom, LabelPositions, GloblSymbols, EndOf;
    hide Emittable, LabelForOffset, DecodeFrom;
    AssembledExtracted(src, p, resolved, o);
    ParseExact(src);
    SourceLayout(src, 0);
    ResolveAllFacts(p.labels, p.instructions, 0, |o.text|);
    ReorderedFacts(o, e);
    forall i | 0 <= i < |resolved|
      ensures Reaches(e, resolved[i])
    {
      if IsTransferLine(resolved[i].line) {
        assert GoesToLabel(p.labels, resolved[i]);
        var l :| l in p.labels && l.offset == resolved[i].offset + resolved[i].line.immediate;
        assert PlacedIn(l, p.instructions, 0, |o.text|);
        LabelReached(o, p.labels, l);
        LabelNamed(e, l);
      }
    }
    assert e.text[0..] == e.text;
    EmittedDecodes(e, resolved, 0);
  }

  lemma AssembledLabelsPlaced(src: seq<SourceLine>, p: Parsed, resolved: seq<AsmInstruction>, o: Object,
                              lines: seq<DecodedLine>)
    requires Assembled(src, p, resolved, o) && SameOffsets(lines, p.instructions)
    ensures forall l :: l in o.localLabels ==> Placed(l, lines, |o.text|)
  {
    hide Parse, LegalLine, IsValidSymbol, ResolveAll, EncodeAll, InstructionsFrom, LabelPositions, GloblSymbols, EndOf;
    AssembledExtracted(src, p, resolved, o);
    ParseExact(src);
    SourceLayout(src, 0);
    WithoutMembers(p.labels, o.functionName);
    forall l | l in o.localLabels
      ensures Placed(l, lines, |o.text|)
    {
      assert PlacedIn(l, p.instructions, 0, |o.text|);
      if l.offset != |o.text| {
        var i :| 0 <= i < |p.instructions| && p.instructions[i].offset == l.offset;
        assert lines[i].offset == l.offset;
      }
    }
  }

  /**
   Assemble, then disassemble: c4c-objdump accepts every object c4c-as builds, in whatever order
   extraction lists labels that share an offset, and reassembling its output gives that object again.
   */
  lemma AssembleDisassemble(src: seq<SourceLine>, e: Object)
    requires Assemble(src).Done? && Reordered(Assemble(src).value, e)
    ensures Extracted(e) && Decode(e).Ok? && Assemble(Print(e, Decode(e).value)) == Done(e)
  {
    hide Assemble, Print, DecodeFrom, Placed, ValidNames;
    var o := Assemble(src).value;
    var p, resolved := AssembledParts(src);
    AssembledExtracted(src, p, resolved, o);
    ReorderedFacts(o, e);
    AssembledDecodes(src, p, resolved, o, e);
    AssembledLabelsPlaced(src, p, resolved, o, DecodeFrom(e, 0).value);
    DisassembleReassemble(e);
  }
}
