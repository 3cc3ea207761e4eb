/** What c4c-objdump lists of an object, by its bytes, and that it lists of an assembled source the source itself. */
module Rv64Source {
  import opened Machine
  import opened Rv64Bits
  import opened Rv64Isa
  import opened Rv64Emitted
  import opened Rv64Listing
  import opened Rv64Objdump
  import opened Rv64As
  import opened Rv64RoundTrip

  // ------------------------------------------------------ listing bytes

  /**
   Each line of a disassembly, by the four bytes at its offset: `li a0, 0` and `ret` for one word each,
   and otherwise the mnemonic of the word's fields with the word's registers and immediate; a transfer
   carries the name of its target, which is inside the text.
   */
  lemma ListedText(o: Object, i: nat)
    requires Decode(o).Ok? && i < |Decode(o).value|
    ensures var at, d := Decode(o).value[i].offset, Decode(o).value[i].instruction;
            && (d.DecodedInsnD? <==> at + 8 <= |o.text| && DecodeInsnD(ReadU64(o.text, at)).Some?)
            && (d.DecodedInsnD? ==> DecodeInsnD(ReadU64(o.text, at)) == Some(d))
            && (!d.DecodedInsnD? ==>
                  at + 4 <= |o.text| &&
                  var w := ReadU32(o.text, at);
                  && (PrintMnemonic(d) == LI <==> w == 0x0000_0513) && (PrintMnemonic(d) == RET <==> w == 0x0000_8067)
                  && (PrintMnemonic(d) == LI ==> PrintOperands(d) == [Gpr(10), Imm(0)])
                  && (d.DecodedRv64I? ==>
                        HasFields(d.mnemonic, w) && d == Labelled(Listed(d.mnemonic, w), d.targetLabel))
                  && (IsControlFlow(d) ==>
                        0 <= at + d.immediate <= |o.text| && NamesOffset(o, at + d.immediate, d.targetLabel)))
  {
    hide DecodeAt, DecodeWord, DecodeInsnD, HasFields, Listed, ReadU32, ReadU64, NamesOffset, PrintOperands;
    DecodeParts(o);
    DecodedLineAt(o, 0, i);
    var at, d := Decode(o).value[i].offset, Decode(o).value[i].instruction;
    DecodeAtExact(o, at);
    if at + 8 <= |o.text| && DecodeInsnD(ReadU64(o.text, at)).Some? {
      InsnDIsInsnD(ReadU64(o.text, at));
    } else {
      var w := ReadU32(o.text, at);
      ListedWord(w);
      WordIsFourBytes(w);
      ListedUnlabelled(w);
      WordIsCoherent(w);
    }
  }

  lemma ListedUnlabelled(w: bv32)
    requires DecodeWord(w).Some?
    ensures !DecodeWord(w).value.DecodedInsnD?
    ensures !IsControlFlow(DecodeWord(w).value) && DecodeWord(w).value.DecodedRv64I? ==>
              DecodeWord(w).value.targetLabel == ""
  {
    hide RMnemonic, ShiftMnemonic, IMnemonic, LoadMnemonic, StoreMnemonic, UMnemonic, BranchMnemonic;
    hide Opcode, Funct3, Funct7, Rd, Rs1, Rs2, Imm12, IImm, SImm, UImm, BImm, JImm, Signed;
  }

  // ------------------------------------------------------ listing an assembled source

  /** The instruction lines of a source. */
  function InstructionLines(src: seq<SourceLine>): (r: seq<SourceLine>)
    ensures forall i :: 0 <= i < |r| ==> r[i].Instruction?
  {
    if src == [] then []
    else (if src[0].Instruction? then [src[0]] else []) + InstructionLines(src[1..])
  }

  lemma {:induction false} ParsedLines(src: seq<SourceLine>, at: nat)
    requires AllLegal(src)
    ensures var lines, instructions := InstructionLines(src), InstructionsFrom(src, at);
            && |instructions| == |lines|
            && forall i :: 0 <= i < |lines| ==> Parses(lines[i], instructions[i].line)
    decreases |src|
  {
    hide ParseLine;
    if src != [] {
      var rest := src[1..];
      assert forall i :: 0 <= i < |rest| ==> rest[i] == src[i + 1];
      assert LegalLine(src[0]);
      ParsedLines(rest, at + if src[0].Instruction? then MnemonicSize(src[0].mnemonic) else 0);
    }
  }

  predicate Parses(source: SourceLine, line: AsmLine)
  {
    source.Instruction? && ParseLine(source.mnemonic, source.operands) == Some(line)
  }

  lemma {:induction false} ResolvedEach(labels: seq<ObjectLabel>, instructions: seq<AsmInstruction>)
    requires ResolveAll(labels, instructions).Done?
    ensures var r := ResolveAll(labels, instructions).value;
            && |r| == |instructions|
            && forall i :: 0 <= i < |r| ==> Resolved(labels, instructions[i]) == Done(r[i])
  {
    hide Resolved;
    if instructions != [] {
      ResolvedEach(labels, instructions[1..]);
    }
  }

  /** The bytes of each instruction stand at its offset. */
  lemma {:induction false} EncodedSlice(text: seq<bv8>, instructions: seq<AsmInstruction>, at: nat, i: nat)
    requires at <= |text| && AsmTiles(instructions, at, |text|) && EncodeAll(instructions) == Done(text[at..])
    requires i < |instructions|
    ensures EncodeLine(instructions[i].line).Some?
    ensures var bytes, from := EncodeLine(instructions[i].line).value, instructions[i].offset;
            from + |bytes| <= |text| && text[from..from + |bytes|] == bytes
    decreases |instructions|
  {
    hide EncodeLine;
    var ins, rest := instructions[0], instructions[1..];
    var bytes := EncodeLine(ins.line).value;
    var next := at + |bytes|;
    EncodedSize(ins.line);
    assert text[at..] == bytes + EncodeAll(rest).value;
    assert |text[at..]| >= |bytes|;
    assert text[at..next] == text[at..][..|bytes|] == bytes;
    assert text[next..] == text[at..][|bytes|..] == EncodeAll(rest).value;
    if i > 0 {
      EncodedSlice(text, rest, next, i - 1);
    }
  }

  /** A decoded instruction is the line, with its target at distance `v` if it has one. */
  ghost predicate IsLine(d: Decoded, m: Mnemonic, ops: seq<Operand>, v: int)
  {
    && PrintMnemonic(d) == CanonicalMnemonic(m, ops)
    && PrintOperands(Labelled(d, TargetOf(ops))) == CanonicalOperands(m, ops)
    && (IsControlFlow(d) ==> d.immediate == v)
  }

  lemma LabelledLine(d: Decoded, name: string, m: Mnemonic, ops: seq<Operand>, v: int)
    requires IsLine(d, m, ops, v)
    ensures IsLine(Labelled(d, name), m, ops, v)
  {
    hide PrintOperands, CanonicalMnemonic, CanonicalOperands;
    LabelledTwice(d, name, TargetOf(ops));
    assert PrintMnemonic(Labelled(d, name)) == PrintMnemonic(d);
  }

  lemma InsnDLineListed(ops: seq<Operand>, v: int)
    requires ParseLine(INSN_D, ops).Some?
    ensures var l := ParseLine(INSN_D, ops).value;
            && l.InsnDLine? && EncodeLine(l).Some?
            && (var w := EncodeInsnD(l.major, l.operation, l.destination, l.lhs, l.rhs, l.accumulator, l.dtype);
                EncodeLine(l) == Some(Le64(w)) && DecodeInsnD(w).Some? && IsLine(DecodeInsnD(w).value, INSN_D, ops, v))
  {
    hide EncodeInsnD, DecodeInsnD, Le64;
    var l := ParseLine(INSN_D, ops).value;
    InsnDReadBack(l.major, l.operation, l.destination, l.lhs, l.rhs, l.accumulator, l.dtype);
  }

  /** The bytes of a line, at their place in the text, are listed as the line. */
  lemma LineListedAt(o: Object, at: nat, m: Mnemonic, ops: seq<Operand>, v: int, bytes: seq<bv8>)
    requires ParseLine(m, ops).Some? && EncodeLine(WithImmediate(ParseLine(m, ops).value, v)) == Some(bytes)
    requires at + |bytes| <= |o.text| && o.text[at..at + |bytes|] == bytes && DecodeAt(o, at).Ok?
    ensures IsLine(DecodeAt(o, at).value, m, ops, v)
  {
    hide ParseLine, EncodeLine, DecodeInsnD, DecodeWord, ReadU32, ReadU64, Le32, Le64, WordOfLine, EncodeInsnD, Opcode;
    hide IsLine, ListsBack, DecodeAt;
    var line := WithImmediate(ParseLine(m, ops).value, v);
    EncodedSize(line);
    SliceReads(o.text, at, bytes);
    DecodeAtExact(o, at);
    if m == INSN_D {
      InsnDLineListed(ops, v);
      var w :=
        EncodeInsnD(line.major, line.operation, line.destination, line.lhs, line.rhs, line.accumulator, line.dtype);
      ReadsLe64(w);
    } else {
      AssembledListed(m, ops, v);
      var w := WordOfLine(line);
      ReadsLe32(w);
      WordLine(m, ops, v, w);
      if at + 8 <= |o.text| {
        InsnDRefused(o.text, at);
      }
      var d := DecodeWord(w).value;
      forall name
        ensures IsLine(Labelled(d, name), m, ops, v)
      {
        LabelledLine(d, name, m, ops, v);
      }
    }
  }

  lemma WordLine(m: Mnemonic, ops: seq<Operand>, v: int, w: bv32)
    requires ParseLine(m, ops).Some? && m != INSN_D && ListsBack(m, ops, v)
    requires !WithImmediate(ParseLine(m, ops).value, v).InsnDLine?
    requires w == WordOfLine(WithImmediate(ParseLine(m, ops).value, v))
    ensures DecodeWord(w).Some? && IsLine(DecodeWord(w).value, m, ops, v) && Opcode(w) != 0x3f
  {
    hide ParseLine, DecodeWord, WordOfLine, PrintOperands, CanonicalMnemonic, CanonicalOperands, HasFields;
    AcceptedExact(w);
    var fields :| HasFields(fields, w);
    NoWideOpcode(fields, w);
  }

  lemma NoWideOpcode(m: Mnemonic, w: bv32)
    requires HasFields(m, w)
    ensures Opcode(w) != 0x3f
  {
    hide Opcode, Funct3, Funct7, Imm12;
    FieldsHaveRow(m, w);
    RowOpcode(Opcode(w), Funct3(w), Funct7(w), Imm12(w));
  }

  /** The distance a line's target has in a source, zero for a line without one. */
  function Distance(labels: seq<ObjectLabel>, ins: AsmInstruction): int
  {
    if IsTransferLine(ins.line) && FindLabel(labels, ins.line.targetLabel).Some?
    then FindLabel(labels, ins.line.targetLabel).value - ins.offset
    else 0
  }

  lemma ResolvedLine(labels: seq<ObjectLabel>, ins: AsmInstruction, r: AsmInstruction)
    requires Resolved(labels, ins) == Done(r)
    ensures r == AsmInstruction(ins.offset, WithImmediate(ins.line, Distance(labels, ins)))
  {
    hide EncodeLine;
  }

  /**
   Disassembling an assembled source lists its own instructions, one for one and in order: the same
   mnemonics and operands, `li` and `ret` apart, with each transfer going to where its label stands.
   */
  lemma SourceListed(src: seq<SourceLine>, e: Object)
    requires Assemble(src).Done? && Reordered(Assemble(src).value, e)
    ensures Decode(e).Ok?
    ensures var lines, source, placed := Decode(e).value, InstructionLines(src), InstructionsFrom(src, 0);
            && |lines| == |source| == |placed|
            && forall i :: 0 <= i < |lines| ==>
                 && lines[i].offset == placed[i].offset
                 && IsLine(lines[i].instruction, source[i].mnemonic, source[i].operands,
                           Distance(LabelPositions(src, 0), placed[i]))
  {
    hide Assemble, Print, DecodeFrom, Decode, Parse, ResolveAll, EncodeAll, LabelPositions, InstructionsFrom, IsLine,
         InstructionLines, Resolved, BuildObject, Legal, GloblSymbols, EncodeLine, DecodeAt, Distance, AllLegal,
         AsmTiles;
    var o := Assemble(src).value;
    var p, resolved := AssembledParts(src);
    AssembleDisassemble(src, e);
    DecodeParts(e);
    AssembledDecodes(src, p, resolved, o, e);
    ParseExact(src);
    LegalParts(src);
    ParsedLines(src, 0);
    ResolvedEach(p.labels, p.instructions);
    AssembledExtracted(src, p, resolved, o);
    ReorderedFacts(o, e);
    forall i | 0 <= i < |resolved|
      ensures IsLine(Decode(e).value[i].instruction, InstructionLines(src)[i].mnemonic,
                     InstructionLines(src)[i].operands, Distance(p.labels, p.instructions[i]))
    {
      var m, ops := InstructionLines(src)[i].mnemonic, InstructionLines(src)[i].operands;
      ResolvedLine(p.labels, p.instructions[i], resolved[i]);
      assert Parses(InstructionLines(src)[i], p.instructions[i].line);
      AssembledTiles(src, p, resolved, o);
      assert e.text[0..] == e.text;
      EncodedSlice(e.text, resolved, 0, i);
      DecodedLineAt(e, 0, i);
      LineListedAt(e, resolved[i].offset, m, ops, Distance(p.labels, p.instructions[i]),
                   EncodeLine(resolved[i].line).value);
    }
  }

  lemma LegalParts(src: seq<SourceLine>)
    ensures Legal(src) ==> AllLegal(src)
  {
  }

  lemma AssembledTiles(src: seq<SourceLine>, p: Parsed, resolved: seq<AsmInstruction>, o: Object)
    requires Assembled(src, p, resolved, o)
    ensures AsmTiles(resolved, 0, |o.text|)
  {
    hide Parse, LegalLine, IsValidSymbol, ResolveAll, EncodeAll, InstructionsFrom, LabelPositions, GloblSymbols, EndOf;
    AssembledExtracted(src, p, resolved, o);
    ParseExact(src);
    SourceLayout(src, 0);
    ResolveAllFacts(p.labels, p.instructions, 0, EndOf(src, 0));
  }
}
