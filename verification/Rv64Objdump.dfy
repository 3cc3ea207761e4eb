/**
 The disassembler of src/apps/c4c-objdump.cpp from an extracted object on: the text bytes are
 walked once, branch and jump targets are named by a label, and the result is printed as lines
 of canonical assembly. Lines are tokens here, not characters.
 */
module Rv64Objdump {
  import opened Machine
  import opened Rv64Bits
  import opened Rv64Isa

  datatype ObjectLabel = ObjectLabel(name: string, offset: nat)
  datatype Object = Object(functionName: string, text: seq<bv8>, localLabels: seq<ObjectLabel>)

  /** What extraction establishes; the order of labels that share an offset is not used. */
  ghost predicate Extracted(o: Object)
  {
    && o.text != []
    && SortedLabels(o.localLabels)
    && forall l :: l in o.localLabels ==> l.name != o.functionName && l.offset <= |o.text|
  }

  ghost predicate SortedLabels(labels: seq<ObjectLabel>)
  {
    forall i, j :: 0 <= i < j < |labels| ==> labels[i].offset <= labels[j].offset
  }

  datatype Error =
    | TargetOutsideText(at: nat)
    | TargetWithoutLabel(at: nat)
    | UnsupportedBytes(at: nat)
    | LabelOffInstruction(name: string, offset: nat)

  datatype Result<+T> = Ok(value: T) | Err(error: Error)

  datatype DecodedLine = DecodedLine(offset: nat, instruction: Decoded)

  // --------------------------------------------------------------- targets

  /** Label `k` is the first at that offset. */
  predicate IsFirstAt(labels: seq<ObjectLabel>, offset: nat, k: nat)
  {
    k < |labels| && labels[k].offset == offset && forall j :: 0 <= j < k ==> labels[j].offset != offset
  }

  function FirstLabelAt(labels: seq<ObjectLabel>, offset: nat): (r: Option<string>)
    ensures r.Some? ==> ObjectLabel(r.value, offset) in labels
    ensures r.None? ==> forall l :: l in labels ==> l.offset != offset
  {
    if labels == [] then None
    else if labels[0].offset == offset then Some(labels[0].name)
    else FirstLabelAt(labels[1..], offset)
  }

  lemma {:induction false} FirstLabelExact(labels: seq<ObjectLabel>, offset: nat) returns (k: nat)
    requires FirstLabelAt(labels, offset).Some?
    ensures IsFirstAt(labels, offset, k) && labels[k].name == FirstLabelAt(labels, offset).value
  {
    if labels[0].offset == offset {
      k := 0;
    } else {
      var rest := FirstLabelExact(labels[1..], offset);
      k := rest + 1;
      forall j | 0 <= j < k
        ensures labels[j].offset != offset
      {
        assert j > 0 ==> labels[1..][j - 1] == labels[j];
      }
    }
  }

  /** `label_for_offset`: offset 0 always names the function itself. */
  function LabelForOffset(o: Object, offset: nat): Option<string>
  {
    if offset == 0 then Some(o.functionName) else FirstLabelAt(o.localLabels, offset)
  }

  /** `relative_target_offset`; the end of the text is a legal target. */
  function RelativeTarget(at: nat, immediate: int, size: nat): (r: Option<nat>)
    ensures r.Some? <==> 0 <= at + immediate <= size
    ensures r.Some? ==> r.value == at + immediate
  {
    if at + immediate < 0 || at + immediate > size then None else Some(at + immediate)
  }

  // --------------------------------------------------------------- decoding

  function Size(d: Decoded): nat
  {
    if d.DecodedInsnD? then 8 else 4
  }

  /** A decoded word, with the label of its target when it transfers control. */
  function NameTarget(o: Object, at: nat, d: Decoded): (r: Result<Decoded>)
    ensures r.Ok? && IsControlFlow(d) ==>
              0 <= at + d.immediate <= |o.text| && LabelForOffset(o, at + d.immediate).Some? &&
              r.value == Labelled(d, LabelForOffset(o, at + d.immediate).value)
    ensures !IsControlFlow(d) ==> r == Ok(d)
  {
    if !IsControlFlow(d) then Ok(d)
    else
      match RelativeTarget(at, d.immediate, |o.text|)
      case None => Err(TargetOutsideText(at))
      case Some(target) =>
        match LabelForOffset(o, target)
        case None => Err(TargetWithoutLabel(at))
        case Some(name) => Ok(d.(targetLabel := name))
  }

  /** The instruction at one offset: the 8-byte form first, then the 4-byte forms. */
  function DecodeAt(o: Object, at: nat): Result<Decoded>
  {
    if at + 8 <= |o.text| && DecodeInsnD(ReadU64(o.text, at)).Some? then Ok(DecodeInsnD(ReadU64(o.text, at)).value)
    else if at + 4 <= |o.text| && DecodeWord(ReadU32(o.text, at)).Some? then
      NameTarget(o, at, DecodeWord(ReadU32(o.text, at)).value)
    else Err(UnsupportedBytes(at))
  }

  /** The function's own name for its start, else the first local label at that offset. */
  ghost predicate NamesOffset(o: Object, offset: nat, name: string)
  {
    if offset == 0 then name == o.functionName
    else exists k: nat :: IsFirstAt(o.localLabels, offset, k) && o.localLabels[k].name == name
  }

  /** The offset is the function's start or that of a local label. */
  ghost predicate HasName(o: Object, offset: int)
  {
    offset == 0 || exists l :: l in o.localLabels && l.offset == offset
  }

  /** A transfer keeps everything but its target's name, which must be one and lie in the text. */
  lemma NameTargetExact(o: Object, at: nat, d: Decoded)
    requires IsControlFlow(d)
    ensures var r, target := NameTarget(o, at, d), at + d.immediate;
            && (r == Err(TargetOutsideText(at)) <==> !(0 <= target <= |o.text|))
            && (r == Err(TargetWithoutLabel(at)) <==> 0 <= target <= |o.text| && !HasName(o, target))
            && (0 <= target <= |o.text| && HasName(o, target) ==>
                  r.Ok? && r.value == Labelled(d, r.value.targetLabel) && NamesOffset(o, target, r.value.targetLabel))
  {
    hide FirstLabelAt, IsFirstAt;
    if at + d.immediate > 0 {
      LabelAtExact(o, at + d.immediate);
    }
  }

  /** Which instruction stands at an offset, or what is wrong there. */
  lemma DecodeAtExact(o: Object, at: nat)
    ensures var r := DecodeAt(o, at);
            var wide := at + 8 <= |o.text| && DecodeInsnD(ReadU64(o.text, at)).Some?;
            var narrow := at + 4 <= |o.text| && DecodeWord(ReadU32(o.text, at)).Some?;
            && (wide ==> r == Ok(DecodeInsnD(ReadU64(o.text, at)).value))
            && (!wide && !narrow ==> r == Err(UnsupportedBytes(at)))
            && (!wide && narrow ==>
                  var d := DecodeWord(ReadU32(o.text, at)).value;
                  if !IsControlFlow(d) then r == Ok(d)
                  else
                    var target := at + d.immediate;
                    && (r == Err(TargetOutsideText(at)) <==> !(0 <= target <= |o.text|))
                    && (r == Err(TargetWithoutLabel(at)) <==> 0 <= target <= |o.text| && !HasName(o, target))
                    && (0 <= target <= |o.text| && HasName(o, target) ==>
                          r.Ok? && r.value == Labelled(d, r.value.targetLabel) &&
                          NamesOffset(o, target, r.value.targetLabel)))
  {
    hide DecodeWord, DecodeInsnD, NameTarget, HasName, NamesOffset, ReadU32, ReadU64;
    if at + 4 <= |o.text| && DecodeWord(ReadU32(o.text, at)).Some? {
      var d := DecodeWord(ReadU32(o.text, at)).value;
      if IsControlFlow(d) {
        NameTargetExact(o, at, d);
      } else {
        NameTargetPlain(o, at, d);
      }
    }
  }

  lemma NameTargetPlain(o: Object, at: nat, d: Decoded)
    requires !IsControlFlow(d)
    ensures NameTarget(o, at, d) == Ok(d)
  {
  }

  lemma LabelAtExact(o: Object, offset: nat)
    requires offset > 0
    ensures var found := FirstLabelAt(o.localLabels, offset);
            && (found.None? <==> forall l :: l in o.localLabels ==> l.offset != offset)
            && (found.Some? ==> NamesOffset(o, offset, found.value))
  {
    if FirstLabelAt(o.localLabels, offset).Some? {
      var k := FirstLabelExact(o.localLabels, offset);
      assert ObjectLabel(FirstLabelAt(o.localLabels, offset).value, offset) in o.localLabels;
    }
  }

  lemma WordIsFourBytes(w: bv32)
    requires DecodeWord(w).Some?
    ensures Size(DecodeWord(w).value) == 4
  {
    hide RMnemonic, ShiftMnemonic, IMnemonic, LoadMnemonic, StoreMnemonic, UMnemonic, BranchMnemonic;
    hide Opcode, Funct3, Funct7, Rd, Rs1, Rs2, Imm12, IImm, SImm, UImm, BImm, JImm, Signed;
  }

  lemma DecodeAtFits(o: Object, at: nat)
    requires DecodeAt(o, at).Ok?
    ensures at + Size(DecodeAt(o, at).value) <= |o.text|
  {
    if at + 8 <= |o.text| && DecodeInsnD(ReadU64(o.text, at)).Some? {
    } else {
      WordIsFourBytes(ReadU32(o.text, at));
    }
  }

  /** The lines from offset `at` to the end of the text, or the first error. */
  function DecodeFrom(o: Object, at: nat): Result<seq<DecodedLine>>
    requires at <= |o.text|
    decreases |o.text| - at
  {
    if at == |o.text| then Ok([])
    else
      match DecodeAt(o, at)
      case Err(e) => Err(e)
      case Ok(d) =>
        DecodeAtFits(o, at);
        Prepend([DecodedLine(at, d)], DecodeFrom(o, at + Size(d)))
  }

  function Prepend(lines: seq<DecodedLine>, rest: Result<seq<DecodedLine>>): Result<seq<DecodedLine>>
  {
    if rest.Ok? then Ok(lines + rest.value) else rest
  }

  predicate StartsLine(lines: seq<DecodedLine>, offset: nat)
  {
    exists i :: 0 <= i < |lines| && lines[i].offset == offset
  }

  /** A label may stand before an instruction or at the end of the text. */
  predicate Placed(l: ObjectLabel, lines: seq<DecodedLine>, size: nat)
  {
    l.offset == size || StartsLine(lines, l.offset)
  }

  predicate IsFirstMisplaced(labels: seq<ObjectLabel>, lines: seq<DecodedLine>, size: nat, k: nat)
  {
    k < |labels| && !Placed(labels[k], lines, size) && forall j :: 0 <= j < k ==> Placed(labels[j], lines, size)
  }

  function CheckLabels(labels: seq<ObjectLabel>, lines: seq<DecodedLine>, size: nat): (r: Result<seq<DecodedLine>>)
    ensures r.Ok? <==> forall l :: l in labels ==> Placed(l, lines, size)
    ensures r.Ok? ==> r.value == lines
  {
    if labels == [] then Ok(lines)
    else if !Placed(labels[0], lines, size) then Err(LabelOffInstruction(labels[0].name, labels[0].offset))
    else CheckLabels(labels[1..], lines, size)
  }

  /** A refusal names the first label that stands inside an instruction. */
  lemma {:induction false} MisplacedExact(labels: seq<ObjectLabel>, lines: seq<DecodedLine>, size: nat) returns (k: nat)
    requires CheckLabels(labels, lines, size).Err?
    ensures IsFirstMisplaced(labels, lines, size, k)
    ensures CheckLabels(labels, lines, size) == Err(LabelOffInstruction(labels[k].name, labels[k].offset))
  {
    hide Placed;
    if !Placed(labels[0], lines, size) {
      k := 0;
    } else {
      var rest := MisplacedExact(labels[1..], lines, size);
      k := rest + 1;
      forall j | 0 <= j < k
        ensures Placed(labels[j], lines, size)
      {
        assert j > 0 ==> labels[1..][j - 1] == labels[j];
      }
    }
  }

  /** `decode_text_bytes` as a function. */
  function Decode(o: Object): Result<seq<DecodedLine>>
  {
    var lines := DecodeFrom(o, 0);
    if lines.Err? then lines else CheckLabels(o.localLabels, lines.value, |o.text|)
  }

  /** `decode_text_bytes`: one pass over the text, then one over the labels. */
  method DecodeTextBytes(o: Object) returns (r: Result<seq<DecodedLine>>)
    ensures r == Decode(o)
  {
    hide DecodeAt;
    var decoded: seq<DecodedLine>, offset := [], 0;
    PrependNothing(DecodeFrom(o, 0));
    while offset < |o.text|
      invariant 0 <= offset <= |o.text|
      invariant DecodeFrom(o, 0) == Prepend(decoded, DecodeFrom(o, offset))
    {
      var d := DecodeAt(o, offset);
      if d.Err? {
        return Err(d.error);
      }
      DecodeAtFits(o, offset);
      PrependTwice(decoded, DecodedLine(offset, d.value), DecodeFrom(o, offset + Size(d.value)));
      decoded := decoded + [DecodedLine(offset, d.value)];
      offset := offset + Size(d.value);
    }
    assert decoded + [] == decoded;
    var next := 0;
    while next < |o.localLabels|
      invariant 0 <= next <= |o.localLabels|
      invariant CheckLabels(o.localLabels, decoded, |o.text|) == CheckLabels(o.localLabels[next..], decoded, |o.text|)
    {
      var l := o.localLabels[next];
      if !Placed(l, decoded, |o.text|) {
        return Err(LabelOffInstruction(l.name, l.offset));
      }
      assert o.localLabels[next..][1..] == o.localLabels[next + 1..];
      next := next + 1;
    }
    return Ok(decoded);
  }

  lemma PrependNothing(rest: Result<seq<DecodedLine>>)
    ensures Prepend([], rest) == rest
  {
    if rest.Ok? {
      assert [] + rest.value == rest.value;
    }
  }

  lemma PrependTwice(lines: seq<DecodedLine>, line: DecodedLine, rest: Result<seq<DecodedLine>>)
    ensures Prepend(lines, Prepend([line], rest)) == Prepend(lines + [line], rest)
  {
    if rest.Ok? {
      assert lines + ([line] + rest.value) == lines + [line] + rest.value;
    }
  }

  // --------------------------------------------------------------- tiling

  /** Consecutive lines that cover the offsets from `from` to `to` without gap or overlap. */
  predicate Tiles(lines: seq<DecodedLine>, from: nat, to: nat)
  {
    if lines == [] then from == to
    else lines[0].offset == from && Tiles(lines[1..], from + Size(lines[0].instruction), to)
  }

  /** A failed walk decodes up to the offset of its first fault. */
  lemma {:induction false} FirstFault(o: Object, from: nat) returns (lines: seq<DecodedLine>, at: nat)
    requires from <= |o.text| && DecodeFrom(o, from).Err?
    ensures at < |o.text| && Tiles(lines, from, at) && DecodeAt(o, at) == Err(DecodeFrom(o, from).error)
    ensures forall i :: 0 <= i < |lines| ==> DecodeAt(o, lines[i].offset) == Ok(lines[i].instruction)
    decreases |o.text| - from
  {
    hide DecodeAt;
    if DecodeAt(o, from).Err? {
      lines, at := [], from;
    } else {
      var d := DecodeAt(o, from).value;
      DecodeAtFits(o, from);
      var rest, fault := FirstFault(o, from + Size(d));
      lines, at := [DecodedLine(from, d)] + rest, fault;
      assert lines[1..] == rest;
    }
  }

  /** The bytes of an instruction whose target, if any, is given by its distance. */
  function Bytes(d: Decoded): Option<seq<bv8>>
  {
    Reassembled(Labelled(d, "f"))
  }

  function BytesOf(lines: seq<DecodedLine>): Option<seq<bv8>>
  {
    if lines == [] then Some([])
    else if Bytes(lines[0].instruction).None? || BytesOf(lines[1..]).None? then None
    else Some(Bytes(lines[0].instruction).value + BytesOf(lines[1..]).value)
  }

  lemma LabelledTwice(d: Decoded, t: string, u: string)
    ensures Labelled(Labelled(d, t), u) == Labelled(d, u)
  {
  }

  /** The bytes of the decoded instruction are the bytes it was decoded from. */
  lemma DecodeAtBytes(o: Object, at: nat)
    requires DecodeAt(o, at).Ok?
    ensures at + Size(DecodeAt(o, at).value) <= |o.text|
    ensures Bytes(DecodeAt(o, at).value) == Some(o.text[at..at + Size(DecodeAt(o, at).value)])
  {
    DecodeAtFits(o, at);
    if at + 8 <= |o.text| && DecodeInsnD(ReadU64(o.text, at)).Some? {
      InsnDRoundTrip(ReadU64(o.text, at));
      Le64Reads(o.text, at);
    } else {
      var w := ReadU32(o.text, at);
      var d := DecodeWord(w).value;
      WordIsFourBytes(w);
      WordRoundTrip(w, "f");
      Le32Reads(o.text, at);
      if IsControlFlow(d) {
        LabelledTwice(d, LabelForOffset(o, at + d.immediate).value, "f");
      }
    }
  }

  /** Decoding is lossless on every byte stream it accepts. */
  lemma {:induction false} DecodeLossless(o: Object, at: nat)
    requires at <= |o.text| && DecodeFrom(o, at).Ok?
    ensures Tiles(DecodeFrom(o, at).value, at, |o.text|)
    ensures BytesOf(DecodeFrom(o, at).value) == Some(o.text[at..])
    decreases |o.text| - at
  {
    hide DecodeAt, Bytes;
    if at < |o.text| {
      var d := DecodeAt(o, at).value;
      DecodeAtBytes(o, at);
      var rest := DecodeFrom(o, at + Size(d)).value;
      DecodeLossless(o, at + Size(d));
      assert ([DecodedLine(at, d)] + rest)[1..] == rest;
      assert o.text[at..at + Size(d)] + o.text[at + Size(d)..] == o.text[at..];
    } else {
      assert o.text[at..] == [];
    }
  }

  // --------------------------------------------------------------- printing

  datatype SourceLine =
    | TextDirective
    | Globl(symbol: string)
    | LabelLine(name: string)
    | Instruction(mnemonic: Mnemonic, operands: seq<Operand>)

  function InstructionLine(d: Decoded): SourceLine
  {
    Instruction(PrintMnemonic(d), PrintOperands(d))
  }

  /** Instructions in order, each preceded by the pending labels at its offset. */
  function PrintBody(lines: seq<DecodedLine>, labels: seq<ObjectLabel>, size: nat): seq<SourceLine>
    decreases |lines|, |labels|
  {
    if labels != [] && labels[0].offset == NextOffset(lines, size) then
      [LabelLine(labels[0].name)] + PrintBody(lines, labels[1..], size)
    else if lines == [] then []
    else [InstructionLine(lines[0].instruction)] + PrintBody(lines[1..], labels, size)
  }

  function Print(o: Object, lines: seq<DecodedLine>): seq<SourceLine>
  {
    [TextDirective, Globl(o.functionName), LabelLine(o.functionName)] + PrintBody(lines, o.localLabels, |o.text|)
  }

  /** The offset the cursor stands at. */
  function NextOffset(lines: seq<DecodedLine>, size: nat): nat
  {
    if lines == [] then size else lines[0].offset
  }

  /** One more label: what was written plus what is still to be written stays the same. */
  lemma PrintLabel(output: seq<SourceLine>, lines: seq<DecodedLine>, labels: seq<ObjectLabel>, k: nat, size: nat)
    requires k < |labels| && labels[k].offset == NextOffset(lines, size)
    ensures output + PrintBody(lines, labels[k..], size) ==
            output + [LabelLine(labels[k].name)] + PrintBody(lines, labels[k + 1..], size)
  {
    assert labels[k..][1..] == labels[k + 1..];
  }

  lemma PrintInstruction(output: seq<SourceLine>, lines: seq<DecodedLine>, i: nat, labels: seq<ObjectLabel>, size: nat)
    requires i < |lines| && (labels != [] ==> labels[0].offset != lines[i].offset)
    ensures output + PrintBody(lines[i..], labels, size) ==
            output + [InstructionLine(lines[i].instruction)] + PrintBody(lines[i + 1..], labels, size)
  {
    hide InstructionLine;
    assert lines[i..][1..] == lines[i + 1..];
  }

  /** `write_canonical_assembly`, with the output as a sequence of lines. */
  method WriteCanonicalAssembly(o: Object, lines: seq<DecodedLine>) returns (output: seq<SourceLine>)
    ensures output == Print(o, lines)
  {
    hide InstructionLine, PrintBody;
    output := [TextDirective, Globl(o.functionName), LabelLine(o.functionName)];
    var nextLabel, i := 0, 0;
    assert lines[0..] == lines && o.localLabels[0..] == o.localLabels;
    while i < |lines|
      invariant 0 <= i <= |lines| && 0 <= nextLabel <= |o.localLabels|
      invariant Print(o, lines) == output + PrintBody(lines[i..], o.localLabels[nextLabel..], |o.text|)
    {
      var line := lines[i];
      while nextLabel < |o.localLabels| && o.localLabels[nextLabel].offset == line.offset
        invariant 0 <= nextLabel <= |o.localLabels|
        invariant Print(o, lines) == output + PrintBody(lines[i..], o.localLabels[nextLabel..], |o.text|)
      {
        PrintLabel(output, lines[i..], o.localLabels, nextLabel, |o.text|);
        output := output + [LabelLine(o.localLabels[nextLabel].name)];
        nextLabel := nextLabel + 1;
      }
      PrintInstruction(output, lines, i, o.localLabels[nextLabel..], |o.text|);
      output := output + [InstructionLine(line.instruction)];
      i := i + 1;
    }
    assert lines[i..] == [];
    while nextLabel < |o.localLabels| && o.localLabels[nextLabel].offset == |o.text|
      invariant 0 <= nextLabel <= |o.localLabels|
      invariant Print(o, lines) == output + PrintBody([], o.localLabels[nextLabel..], |o.text|)
    {
      PrintLabel(output, [], o.localLabels, nextLabel, |o.text|);
      output := output + [LabelLine(o.localLabels[nextLabel].name)];
      nextLabel := nextLabel + 1;
    }
    NothingLeft(o.localLabels[nextLabel..], |o.text|);
  }

  lemma NothingLeft(labels: seq<ObjectLabel>, size: nat)
    requires labels != [] ==> labels[0].offset != size
    ensures PrintBody([], labels, size) == []
  {
  }

  // ------------------------------------------------- where the labels end up

  /** The size an assembler gives an instruction line. */
  function MnemonicSize(m: Mnemonic): nat
  {
    if m.INSN_D? then 8 else 4
  }

  /** The labels of a source and the byte offsets they fall on, counting instructions from `at`. */
  function LabelPositions(src: seq<SourceLine>, at: nat): seq<ObjectLabel>
  {
    if src == [] then []
    else
      match src[0]
      case LabelLine(name) => [ObjectLabel(name, at)] + LabelPositions(src[1..], at)
      case Instruction(m, _) => LabelPositions(src[1..], at + MnemonicSize(m))
      case _ => LabelPositions(src[1..], at)
  }

  /** Mnemonic and format of a decoded instruction belong together. */
  predicate Coherent(d: Decoded)
  {
    d.DecodedRv64I? ==>
      && (d.mnemonic.BranchM? <==> d.format.Branch?) && (d.mnemonic.JAL? <==> d.format.Jal?)
      && !d.mnemonic.INSN_D? && !d.mnemonic.LI? && !d.mnemonic.RET?
  }

  lemma {:induction false} TilesFrom(lines: seq<DecodedLine>, from: nat, to: nat, i: nat)
    requires Tiles(lines, from, to) && i < |lines|
    ensures from <= lines[i].offset && from + Size(lines[0].instruction) <= to
    ensures i > 0 ==> lines[i].offset >= from + Size(lines[0].instruction)
    decreases |lines|
  {
    var rest := lines[1..];
    if rest == [] {
    } else {
      TilesFrom(rest, from + Size(lines[0].instruction), to, if i == 0 then 0 else i - 1);
    }
  }

  /** Labels still to be printed when the lines from `at` on are. */
  ghost predicate Pending(labels: seq<ObjectLabel>, lines: seq<DecodedLine>, at: nat, size: nat)
  {
    SortedLabels(labels) && forall l :: l in labels ==> l.offset >= at && Placed(l, lines, size)
  }

  lemma PendingAfterLabel(labels: seq<ObjectLabel>, lines: seq<DecodedLine>, at: nat, size: nat)
    requires labels != [] && Pending(labels, lines, at, size)
    ensures Pending(labels[1..], lines, at, size)
  {
  }

  lemma PendingAfterLine(labels: seq<ObjectLabel>, lines: seq<DecodedLine>, at: nat, size: nat)
    requires lines != [] && Tiles(lines, at, size) && Pending(labels, lines, at, size)
    requires labels != [] ==> labels[0].offset != at
    ensures Pending(labels, lines[1..], at + Size(lines[0].instruction), size)
  {
    var next := at + Size(lines[0].instruction);
    forall l | l in labels
      ensures l.offset >= next && Placed(l, lines[1..], size)
    {
      TilesFrom(lines, at, size, 0);
      if l.offset != size {
        var i :| 0 <= i < |lines| && lines[i].offset == l.offset;
        TilesFrom(lines, at, size, i);
        assert lines[1..][i - 1] == lines[i];
      }
    }
  }

  lemma NoPositions(at: nat)
    ensures LabelPositions([], at) == []
  {
  }

  lemma PositionsAfterInstruction(d: Decoded, rest: seq<SourceLine>, at: nat)
    requires Coherent(d)
    ensures LabelPositions([InstructionLine(d)] + rest, at) == LabelPositions(rest, at + Size(d))
  {
    assert ([InstructionLine(d)] + rest)[1..] == rest;
  }

  lemma PositionsAfterLabel(name: string, rest: seq<SourceLine>, at: nat)
    ensures LabelPositions([LabelLine(name)] + rest, at) == [ObjectLabel(name, at)] + LabelPositions(rest, at)
  {
    assert ([LabelLine(name)] + rest)[1..] == rest;
  }

  /** Every pending label is printed, once, at its own offset. */
  lemma {:induction false} PrintedOnce(lines: seq<DecodedLine>, labels: seq<ObjectLabel>, at: nat, size: nat)
    requires Tiles(lines, at, size) && Pending(labels, lines, at, size)
    requires forall i :: 0 <= i < |lines| ==> Coherent(lines[i].instruction)
    ensures LabelPositions(PrintBody(lines, labels, size), at) == labels
    decreases |lines|, |labels|
  {
    hide LabelPositions, InstructionLine, Coherent;
    if labels != [] && labels[0].offset == at {
      PendingAfterLabel(labels, lines, at, size);
      PrintedOnce(lines, labels[1..], at, size);
      PositionsAfterLabel(labels[0].name, PrintBody(lines, labels[1..], size), at);
    } else if lines == [] {
      NoPositions(at);
    } else {
      PendingAfterLine(labels, lines, at, size);
      PrintedOnce(lines[1..], labels, at + Size(lines[0].instruction), size);
      PositionsAfterInstruction(lines[0].instruction, PrintBody(lines[1..], labels, size), at);
    }
  }

  lemma Rv64IIsCoherent(w: bv32)
    requires DecodeRv64I(w).Some?
    ensures Coherent(DecodeRv64I(w).value)
  {
    hide RMnemonic, ShiftMnemonic, IMnemonic, LoadMnemonic, StoreMnemonic, UMnemonic, BranchMnemonic;
    hide Opcode, Funct3, Funct7, Rd, Rs1, Rs2, Imm12, IImm, SImm, UImm, BImm, JImm, Signed;
  }

  lemma WordIsCoherent(w: bv32)
    requires DecodeWord(w).Some?
    ensures Coherent(DecodeWord(w).value)
  {
    hide DecodeRv64I, Opcode, Funct3, Rd, Rs1, IImm, Signed;
    if DecodeLi(w).None? && DecodeRet(w).None? {
      Rv64IIsCoherent(w);
    }
  }

  lemma DecodeAtCoherent(o: Object, at: nat)
    requires DecodeAt(o, at).Ok?
    ensures Coherent(DecodeAt(o, at).value)
  {
    hide DecodeWord, DecodeInsnD;
    if at + 8 <= |o.text| && DecodeInsnD(ReadU64(o.text, at)).Some? {
      InsnDIsInsnD(ReadU64(o.text, at));
    } else {
      WordIsCoherent(ReadU32(o.text, at));
    }
  }

  lemma InsnDIsInsnD(w: bv64)
    requires DecodeInsnD(w).Some?
    ensures DecodeInsnD(w).value.DecodedInsnD?
  {
  }
}
