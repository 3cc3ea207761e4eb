/**
 The assembler of src/apps/c4c-as.cpp on tokenized lines: one pass that collects globals,
 labels and instructions with their offsets, label resolution, encoding, and the object that
 is handed to the ELF writer.
 */
module Rv64As {
  import opened Machine
  import opened Rv64Isa
  import opened Rv64Objdump

  datatype Failure =
    | MalformedGlobl | MalformedLabel | LabelOutsideText | DuplicateLabel
    | UnsupportedDirective | InstructionOutsideText | UnsupportedInstruction | MissingText
    | UndefinedLabel | TargetOutOfRange | EncodingFailed
    | NotOneGlobal | GlobalWithoutLabel | GlobalNotFirst | NoInstruction

  datatype Outcome<+T> = Done(value: T) | Failed(failure: Failure)

  datatype AsmInstruction = AsmInstruction(offset: nat, line: AsmLine)
  datatype Parsed = Parsed(globals: seq<string>, labels: seq<ObjectLabel>, instructions: seq<AsmInstruction>)
  datatype ParseState = ParseState(inText: bool, textOffset: nat, parsed: Parsed)

  // --------------------------------------------------------------- parsing

  predicate HasLabel(labels: seq<ObjectLabel>, name: string)
  {
    exists i :: 0 <= i < |labels| && labels[i].name == name
  }

  function AddLabel(st: ParseState, name: string): Outcome<ParseState>
  {
    if !IsValidSymbol(name) then Failed(MalformedLabel)
    else if !st.inText then Failed(LabelOutsideText)
    else if HasLabel(st.parsed.labels, name) then Failed(DuplicateLabel)
    else Done(st.(parsed := st.parsed.(labels := st.parsed.labels + [ObjectLabel(name, st.textOffset)])))
  }

  function AddInstruction(st: ParseState, m: Mnemonic, operands: seq<Operand>): Outcome<ParseState>
  {
    var line := ParseLine(m, operands);
    if m.INSN_D? && line.None? then Failed(UnsupportedDirective)
    else if !st.inText then Failed(InstructionOutsideText)
    else if line.None? then Failed(UnsupportedInstruction)
    else
      Done(ParseState(true, st.textOffset + LineSize(line.value),
                      st.parsed.(instructions := st.parsed.instructions + [AsmInstruction(st.textOffset, line.value)])))
  }

  /** One iteration of the parse loop. */
  function Step(st: ParseState, line: SourceLine): Outcome<ParseState>
  {
    match line
    case TextDirective => Done(st.(inText := true))
    case Globl(symbol) =>
      if !IsValidSymbol(symbol) then Failed(MalformedGlobl)
      else Done(st.(parsed := st.parsed.(globals := st.parsed.globals + [symbol])))
    case LabelLine(name) => AddLabel(st, name)
    case Instruction(m, operands) => AddInstruction(st, m, operands)
  }

  function ParseFrom(st: ParseState, src: seq<SourceLine>): Outcome<Parsed>
    decreases |src|
  {
    if src == [] then if st.inText then Done(st.parsed) else Failed(MissingText)
    else
      match Step(st, src[0])
      case Failed(f) => Failed(f)
      case Done(next) => ParseFrom(next, src[1..])
  }

  const START := ParseState(false, 0, Parsed([], [], []))

  function Parse(src: seq<SourceLine>): Outcome<Parsed>
  {
    ParseFrom(START, src)
  }

  /** `parse_assembly_file`: the seen labels are kept in a set of their own. */
  method ParseAssemblyFile(src: seq<SourceLine>) returns (r: Outcome<Parsed>)
    ensures r == Parse(src)
  {
    hide ParseLine, LineSize, IsValidSymbol;
    var result := Parsed([], [], []);
    var seenLabels: set<string> := {};
    var inText, textOffset: nat, i := false, 0, 0;
    while i < |src|
      invariant 0 <= i <= |src|
      invariant forall name :: name in seenLabels <==> HasLabel(result.labels, name)
      invariant Parse(src) == ParseFrom(ParseState(inText, textOffset, result), src[i..])
    {
      var line := src[i];
      assert src[i..][1..] == src[i + 1..];
      match line {
        case TextDirective =>
          inText := true;
        case Globl(symbol) =>
          if !IsValidSymbol(symbol) {
            return Failed(MalformedGlobl);
          }
          result := result.(globals := result.globals + [symbol]);
        case LabelLine(name) =>
          if !IsValidSymbol(name) {
            return Failed(MalformedLabel);
          }
          if !inText {
            return Failed(LabelOutsideText);
          }
          if name in seenLabels {
            return Failed(DuplicateLabel);
          }
          SeenGrows(result.labels, ObjectLabel(name, textOffset));
          seenLabels := seenLabels + {name};
          result := result.(labels := result.labels + [ObjectLabel(name, textOffset)]);
        case Instruction(m, operands) =>
          var parsed := ParseLine(m, operands);
          if m.INSN_D? && parsed.None? {
            return Failed(UnsupportedDirective);
          }
          if !inText {
            return Failed(InstructionOutsideText);
          }
          if parsed.None? {
            return Failed(UnsupportedInstruction);
          }
          result := result.(instructions := result.instructions + [AsmInstruction(textOffset, parsed.value)]);
          textOffset := textOffset + LineSize(parsed.value);
      }
      i := i + 1;
    }
    if !inText {
      return Failed(MissingText);
    }
    return Done(result);
  }

  lemma SeenGrows(labels: seq<ObjectLabel>, l: ObjectLabel)
    ensures forall name :: HasLabel(labels + [l], name) <==> HasLabel(labels, name) || name == l.name
  {
    forall name
      ensures HasLabel(labels + [l], name) <==> HasLabel(labels, name) || name == l.name
    {
      if HasLabel(labels, name) {
        var i :| 0 <= i < |labels| && labels[i].name == name;
        assert (labels + [l])[i].name == name;
      }
      assert (labels + [l])[|labels|] == l;
    }
  }

  // ------------------------------------------------------- label resolution

  /** The offset of the first label with that name. */
  function FindLabel(labels: seq<ObjectLabel>, name: string): (r: Option<nat>)
    ensures r.Some? ==> ObjectLabel(name, r.value) in labels
    ensures r.None? ==> !HasLabel(labels, name)
  {
    if labels == [] then None
    else if labels[0].name == name then Some(labels[0].offset)
    else FindLabel(labels[1..], name)
  }

  function Resolved(labels: seq<ObjectLabel>, ins: AsmInstruction): Outcome<AsmInstruction>
  {
    if ins.line.BranchLine? || ins.line.JumpLine? then
      match FindLabel(labels, ins.line.targetLabel)
      case None => Failed(UndefinedLabel)
      case Some(target) =>
        var line := WithImmediate(ins.line, target - ins.offset);
        if EncodeLine(line).None? then Failed(TargetOutOfRange) else Done(ins.(line := line))
    else Done(ins)
  }

  function ResolveAll(labels: seq<ObjectLabel>, instructions: seq<AsmInstruction>): Outcome<seq<AsmInstruction>>
  {
    if instructions == [] then Done([])
    else
      match Resolved(labels, instructions[0])
      case Failed(f) => Failed(f)
      case Done(ins) =>
        match ResolveAll(labels, instructions[1..])
        case Failed(f) => Failed(f)
        case Done(rest) => Done([ins] + rest)
  }

  function Resolve(p: Parsed): Outcome<Parsed>
  {
    match ResolveAll(p.labels, p.instructions)
    case Failed(f) => Failed(f)
    case Done(instructions) => Done(p.(instructions := instructions))
  }

  /** The label table is a map filled in order, so the first label of a name stays. */
  method LabelsByName(labels: seq<ObjectLabel>) returns (table: map<string, nat>)
    ensures forall name :: name in table <==> FindLabel(labels, name).Some?
    ensures forall name :: name in table ==> FindLabel(labels, name) == Some(table[name])
  {
    table := map[];
    for i := 0 to |labels|
      invariant forall name :: name in table <==> FindLabel(labels[..i], name).Some?
      invariant forall name :: name in table ==> FindLabel(labels[..i], name) == Some(table[name])
    {
      forall name
        ensures FindLabel(labels[..i + 1], name) ==
                if FindLabel(labels[..i], name).Some? then FindLabel(labels[..i], name)
                else if labels[i].name == name then Some(labels[i].offset) else None
      {
        FindLabelAppend(labels[..i], labels[i], name);
        assert labels[..i + 1] == labels[..i] + [labels[i]];
      }
      if labels[i].name !in table {
        table := table[labels[i].name := labels[i].offset];
      }
    }
    assert labels[..|labels|] == labels;
  }

  lemma {:induction false} FindLabelAppend(labels: seq<ObjectLabel>, l: ObjectLabel, name: string)
    ensures FindLabel(labels + [l], name) ==
            if FindLabel(labels, name).Some? then FindLabel(labels, name)
            else if l.name == name then Some(l.offset) else None
  {
    if labels != [] {
      FindLabelAppend(labels[1..], l, name);
      assert (labels + [l])[1..] == labels[1..] + [l];
    }
  }

  /** `resolve_local_control_flow_labels`: instructions are rewritten one by one. */
  method ResolveLocalControlFlowLabels(p: Parsed) returns (r: Outcome<Parsed>)
    ensures r == Resolve(p)
  {
    hide EncodeLine, WithImmediate;
    var table := LabelsByName(p.labels);
    var instructions := p.instructions;
    AfterNothing(ResolveAll(p.labels, p.instructions));
    assert p.instructions[0..] == p.instructions && p.instructions[..0] == [];
    for i := 0 to |instructions|
      invariant |instructions| == |p.instructions| && instructions[i..] == p.instructions[i..]
      invariant ResolveAll(p.labels, p.instructions) ==
                After(instructions[..i], ResolveAll(p.labels, p.instructions[i..]))
    {
      var ins := instructions[i];
      assert ins == p.instructions[i] && p.instructions[i..][1..] == p.instructions[i + 1..];
      ghost var rest := ResolveAll(p.labels, p.instructions[i + 1..]);
      if ins.line.BranchLine? || ins.line.JumpLine? {
        if ins.line.targetLabel !in table {
          return Failed(UndefinedLabel);
        }
        var line := WithImmediate(ins.line, table[ins.line.targetLabel] - ins.offset);
        instructions := instructions[i := ins.(line := line)];
        if EncodeLine(line).None? {
          return Failed(TargetOutOfRange);
        }
      }
      AfterTwice(instructions[..i], instructions[i], rest);
      assert instructions[..i + 1] == instructions[..i] + [instructions[i]];
    }
    assert instructions[..|instructions|] + [] == instructions;
    return Done(p.(instructions := instructions));
  }

  function After<T>(done: seq<T>, rest: Outcome<seq<T>>): Outcome<seq<T>>
  {
    if rest.Done? then Done(done + rest.value) else rest
  }

  lemma AfterTwice<T>(done: seq<T>, next: T, rest: Outcome<seq<T>>)
    ensures After(done, After([next], rest)) == After(done + [next], rest)
  {
    if rest.Done? {
      assert done + ([next] + rest.value) == done + [next] + rest.value;
    }
  }

  // --------------------------------------------------------------- encoding

  function EncodeAll(instructions: seq<AsmInstruction>): Outcome<seq<bv8>>
  {
    if instructions == [] then Done([])
    else if EncodeLine(instructions[0].line).None? then Failed(EncodingFailed)
    else After(EncodeLine(instructions[0].line).value, EncodeAll(instructions[1..]))
  }

  /** `assemble_text_bytes`. */
  method AssembleTextBytes(p: Parsed) returns (r: Outcome<seq<bv8>>)
    ensures r == EncodeAll(p.instructions)
  {
    hide EncodeLine;
    var bytes: seq<bv8> := [];
    AfterNothing(EncodeAll(p.instructions));
    assert p.instructions[0..] == p.instructions;
    for i := 0 to |p.instructions|
      invariant EncodeAll(p.instructions) == After(bytes, EncodeAll(p.instructions[i..]))
    {
      var encoded := EncodeLine(p.instructions[i].line);
      if encoded.None? {
        return Failed(EncodingFailed);
      }
      assert p.instructions[i..][1..] == p.instructions[i + 1..];
      AfterAfter(bytes, encoded.value, EncodeAll(p.instructions[i + 1..]));
      bytes := bytes + encoded.value;
    }
    assert bytes + [] == bytes;
    return Done(bytes);
  }

  lemma AfterNothing<T>(rest: Outcome<seq<T>>)
    ensures After([], rest) == rest
  {
    if rest.Done? {
      assert [] + rest.value == rest.value;
    }
  }

  lemma AfterAfter<T>(a: seq<T>, b: seq<T>, rest: Outcome<seq<T>>)
    ensures After(a, After(b, rest)) == After(a + b, rest)
  {
    if rest.Done? {
      assert a + (b + rest.value) == a + b + rest.value;
    }
  }

  // --------------------------------------------------------------- the object

  function Without(labels: seq<ObjectLabel>, name: string): seq<ObjectLabel>
  {
    if labels == [] then []
    else if labels[0].name == name then Without(labels[1..], name)
    else [labels[0]] + Without(labels[1..], name)
  }

  /** `build_object_function`. */
  function BuildObject(p: Parsed, text: seq<bv8>): Outcome<Object>
  {
    if |p.globals| != 1 then Failed(NotOneGlobal)
    else
      match FindLabel(p.labels, p.globals[0])
      case None => Failed(GlobalWithoutLabel)
      case Some(offset) =>
        if offset != 0 then Failed(GlobalNotFirst)
        else if text == [] then Failed(NoInstruction)
        else Done(Object(p.globals[0], text, Without(p.labels, p.globals[0])))
  }

  /** The whole assembler up to the ELF writer. */
  function Assemble(src: seq<SourceLine>): Outcome<Object>
  {
    match Parse(src)
    case Failed(f) => Failed(f)
    case Done(p) =>
      match Resolve(p)
      case Failed(f) => Failed(f)
      case Done(q) =>
        match EncodeAll(q.instructions)
        case Failed(f) => Failed(f)
        case Done(text) => BuildObject(q, text)
  }

  method AssembleFile(src: seq<SourceLine>) returns (r: Outcome<Object>)
    ensures r == Assemble(src)
  {
    var parsed := ParseAssemblyFile(src);
    if parsed.Failed? {
      return Failed(parsed.failure);
    }
    var resolved := ResolveLocalControlFlowLabels(parsed.value);
    if resolved.Failed? {
      return Failed(resolved.failure);
    }
    var text := AssembleTextBytes(resolved.value);
    if text.Failed? {
      return Failed(text.failure);
    }
    return BuildObject(resolved.value, text.value);
  }

  // ------------------------------------------- what the parse loop accepts

  function GloblSymbols(src: seq<SourceLine>): seq<string>
  {
    if src == [] then []
    else (if src[0].Globl? then [src[0].symbol] else []) + GloblSymbols(src[1..])
  }

  /** The instructions of a source at the offsets their sizes give them. */
  function InstructionsFrom(src: seq<SourceLine>, at: nat): seq<AsmInstruction>
  {
    if src == [] then []
    else
      match src[0]
      case Instruction(m, operands) =>
        (if ParseLine(m, operands).Some? then [AsmInstruction(at, ParseLine(m, operands).value)] else []) +
        InstructionsFrom(src[1..], at + MnemonicSize(m))
      case _ => InstructionsFrom(src[1..], at)
  }

  /** A line is legal on its own, once `.text` has been seen. */
  predicate LegalLine(line: SourceLine)
  {
    match line
    case TextDirective => true
    case Globl(symbol) => IsValidSymbol(symbol)
    case LabelLine(name) => IsValidSymbol(name)
    case Instruction(m, operands) => ParseLine(m, operands).Some?
  }

  predicate NeedsText(line: SourceLine)
  {
    line.LabelLine? || line.Instruction?
  }

  /** `.text` occurs, and before every label and instruction. */
  predicate TextFirst(src: seq<SourceLine>)
  {
    src != [] && (src[0].TextDirective? || (!NeedsText(src[0]) && TextFirst(src[1..])))
  }

  ghost predicate DistinctNames(labels: seq<ObjectLabel>)
  {
    forall i, j :: 0 <= i < j < |labels| ==> labels[i].name != labels[j].name
  }

  ghost predicate AllLegal(src: seq<SourceLine>)
  {
    forall i :: 0 <= i < |src| ==> LegalLine(src[i])
  }

  /** Sources the parse loop accepts: legal lines, `.text` first, no label twice. */
  ghost predicate Legal(src: seq<SourceLine>)
  {
    && TextFirst(src)
    && AllLegal(src)
    && DistinctNames(LabelPositions(src, 0))
  }

  lemma SizesAgree(m: Mnemonic, operands: seq<Operand>)
    requires ParseLine(m, operands).Some?
    ensures LineSize(ParseLine(m, operands).value) == MnemonicSize(m)
  {
  }

  /** The state after the lines of `src`, when they are legal. */
  ghost function Extended(st: ParseState, src: seq<SourceLine>): Parsed
  {
    Parsed(st.parsed.globals + GloblSymbols(src), st.parsed.labels + LabelPositions(src, st.textOffset),
           st.parsed.instructions + InstructionsFrom(src, st.textOffset))
  }

  ghost predicate LegalFrom(st: ParseState, src: seq<SourceLine>)
  {
    && (st.inText || TextFirst(src))
    && AllLegal(src)
    && DistinctNames(st.parsed.labels + LabelPositions(src, st.textOffset))
  }

  lemma DistinctSplit(labels: seq<ObjectLabel>, l: ObjectLabel, rest: seq<ObjectLabel>)
    requires DistinctNames(labels)
    ensures labels + ([l] + rest) == labels + [l] + rest
    ensures HasLabel(labels, l.name) ==> !DistinctNames(labels + [l] + rest)
    ensures !HasLabel(labels, l.name) ==> DistinctNames(labels + [l])
  {
    var all := labels + [l] + rest;
    if HasLabel(labels, l.name) {
      var i :| 0 <= i < |labels| && labels[i].name == l.name;
      assert all[i] == labels[i] && all[|labels|] == l;
    }
  }

  /** One line: the step succeeds exactly when the line may stand there, and adds what the source says. */
  ghost predicate StepIsFaithful(st: ParseState, src: seq<SourceLine>)
    requires src != []
  {
    && (Step(st, src[0]).Failed? ==> !LegalFrom(st, src))
    && (Step(st, src[0]).Done? ==>
          var next := Step(st, src[0]).value;
          && DistinctNames(next.parsed.labels)
          && (LegalFrom(st, src) <==> LegalFrom(next, src[1..]))
          && Extended(st, src) == Extended(next, src[1..]))
  }

  lemma StepDirective(st: ParseState, src: seq<SourceLine>)
    requires src != [] && DistinctNames(st.parsed.labels) && (src[0].TextDirective? || src[0].Globl?)
    ensures StepIsFaithful(st, src)
  {
    hide ParseLine, IsValidSymbol, AllLegal, DistinctNames, HasLabel;
    LegalTail(src);
    if src[0].Globl? {
      var g, rest, symbol := st.parsed.globals, GloblSymbols(src[1..]), src[0].symbol;
      assert g + ([symbol] + rest) == g + [symbol] + rest;
    }
  }

  lemma StepLabel(st: ParseState, src: seq<SourceLine>)
    requires src != [] && DistinctNames(st.parsed.labels) && src[0].LabelLine?
    ensures StepIsFaithful(st, src)
  {
    hide ParseLine, IsValidSymbol, AllLegal, DistinctNames, HasLabel;
    LegalTail(src);
    DistinctSplit(st.parsed.labels, ObjectLabel(src[0].name, st.textOffset), LabelPositions(src[1..], st.textOffset));
  }

  lemma StepInstruction(st: ParseState, src: seq<SourceLine>)
    requires src != [] && DistinctNames(st.parsed.labels) && src[0].Instruction?
    ensures StepIsFaithful(st, src)
  {
    hide ParseLine, IsValidSymbol, AllLegal, DistinctNames, HasLabel;
    LegalTail(src);
    var Instruction(m, operands) := src[0];
    if ParseLine(m, operands).Some? {
      SizesAgree(m, operands);
      var done, ins := st.parsed.instructions, AsmInstruction(st.textOffset, ParseLine(m, operands).value);
      var later := InstructionsFrom(src[1..], st.textOffset + MnemonicSize(m));
      assert done + ([ins] + later) == done + [ins] + later;
    }
  }

  lemma StepLegal(st: ParseState, src: seq<SourceLine>)
    requires src != [] && DistinctNames(st.parsed.labels)
    ensures StepIsFaithful(st, src)
  {
    hide StepIsFaithful;
    match src[0] {
      case LabelLine(_) => StepLabel(st, src);
      case Instruction(_, _) => StepInstruction(st, src);
      case _ => StepDirective(st, src);
    }
  }

  lemma LegalTail(src: seq<SourceLine>)
    requires src != []
    ensures AllLegal(src) <==> LegalLine(src[0]) && AllLegal(src[1..])
  {
    hide LegalLine;
    if LegalLine(src[0]) && AllLegal(src[1..]) {
      forall i | 0 <= i < |src|
        ensures LegalLine(src[i])
      {
        if i > 0 {
          assert src[1..][i - 1] == src[i];
        }
      }
    }
  }

  lemma {:induction false} ParseFromLegal(st: ParseState, src: seq<SourceLine>)
    requires DistinctNames(st.parsed.labels)
    ensures ParseFrom(st, src).Done? <==> LegalFrom(st, src)
    ensures ParseFrom(st, src).Done? ==> ParseFrom(st, src).value == Extended(st, src)
    decreases |src|
  {
    hide Step;
    if src == [] {
      var p := st.parsed;
      assert p.globals + [] == p.globals && p.labels + [] == p.labels && p.instructions + [] == p.instructions;
    } else {
      StepLegal(st, src);
      if Step(st, src[0]).Done? {
        ParseFromLegal(Step(st, src[0]).value, src[1..]);
      }
    }
  }

  /** The parse loop accepts exactly the legal sources and returns what they say. */
  lemma ParseExact(src: seq<SourceLine>)
    ensures Parse(src).Done? <==> Legal(src)
    ensures Parse(src).Done? ==>
              Parse(src).value == Parsed(GloblSymbols(src), LabelPositions(src, 0), InstructionsFrom(src, 0))
  {
    hide LegalLine;
    ParseFromLegal(START, src);
    assert [] + LabelPositions(src, 0) == LabelPositions(src, 0);
    assert [] + GloblSymbols(src) == GloblSymbols(src);
    assert [] + InstructionsFrom(src, 0) == InstructionsFrom(src, 0);
  }
}
