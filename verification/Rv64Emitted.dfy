/** Everything the line assembler emits is something the word decoders accept. */
module Rv64Emitted {
  import opened Machine
  import opened Rv64Bits
  import opened Rv64Isa

  // ------------------------------------------------------ fields of a word

  lemma FieldsOfR(op: bv32, rd: bv32, f3: bv32, rs1: bv32, rs2: bv32, f7: bv32, w: bv32)
    requires op <= 0x7f && f3 <= 7 && f7 <= 0x7f && w == EncodeR(op, rd, f3, rs1, rs2, f7)
    ensures Opcode(w) == op && Funct3(w) == f3 && Funct7(w) == f7
  {
  }

  lemma FieldsOfI(op: bv32, rd: bv32, f3: bv32, rs1: bv32, imm: bv32, w: bv32)
    requires op <= 0x7f && f3 <= 7 && w == EncodeI(op, rd, f3, rs1, imm)
    ensures Opcode(w) == op && Funct3(w) == f3 && Imm12(w) == imm & 0xfff
  {
  }

  lemma FieldsOfS(op: bv32, f3: bv32, rs1: bv32, rs2: bv32, imm: bv32, w: bv32)
    requires op <= 0x7f && f3 <= 7 && w == EncodeS(op, f3, rs1, rs2, imm)
    ensures Opcode(w) == op && Funct3(w) == f3
  {
  }

  lemma FieldsOfU(op: bv32, rd: bv32, imm: bv32, w: bv32)
    requires op <= 0x7f && w == EncodeU(op, rd, imm)
    ensures Opcode(w) == op
  {
  }

  lemma FieldsOfB(f3: bv32, rs1: bv32, rs2: bv32, imm: bv32, w: bv32)
    requires f3 <= 7 && w == EncodeB(0x63, f3, rs1, rs2, imm)
    ensures Opcode(w) == 0x63 && Funct3(w) == f3
  {
  }

  lemma RawOfB(f3: bv32, rs1: bv32, rs2: bv32, imm: bv32, w: bv32)
    requires w == EncodeB(0x63, f3, rs1, rs2, imm) && imm & 1 == 0
    ensures BRaw(w) == imm & 0x1fff
  {
  }

  lemma FieldsOfJ(rd: bv32, imm: bv32, w: bv32)
    requires w == EncodeJ(0x6f, rd, imm)
    ensures Opcode(w) == 0x6f
  {
  }

  lemma PartsOfJ(rd: bv32, imm: bv32, w: bv32)
    requires w == EncodeJ(0x6f, rd, imm)
    ensures w >> 31 == (imm >> 20) & 1 && (w >> 21) & 0x3ff == (imm >> 1) & 0x3ff
    ensures (w >> 20) & 1 == (imm >> 11) & 1 && (w >> 12) & 0xff == (imm >> 12) & 0xff
  {
  }

  lemma JoinJ(imm: bv32)
    requires imm & 1 == 0
    ensures (((imm >> 20) & 1) << 20) | (((imm >> 1) & 0x3ff) << 1) | (((imm >> 11) & 1) << 11) |
            (((imm >> 12) & 0xff) << 12) == imm & 0x1f_ffff
  {
  }

  lemma RawOfJ(rd: bv32, imm: bv32, w: bv32)
    requires w == EncodeJ(0x6f, rd, imm) && imm & 1 == 0
    ensures JRaw(w) == imm & 0x1f_ffff
  {
    hide EncodeJ;
    PartsOfJ(rd, imm, w);
    JoinJ(imm);
  }

  lemma Extend13(imm: bv32)
    requires imm <= 0xfff || imm >= 0xffff_f000
    ensures SignExtend(imm & 0x1fff, 13) == imm
  {
    if imm <= 0xfff {
      Positive13(imm);
    } else {
      Masked13(imm);
      Negative13(imm & 0x1fff);
    }
  }

  lemma Masked13(imm: bv32)
    requires imm >= 0xffff_f000
    ensures 0xfff < imm & 0x1fff <= 0x1fff && (imm & 0x1fff) | 0xffff_e000 == imm
  {
  }

  lemma Extend21(imm: bv32)
    requires imm <= 0xf_ffff || imm >= 0xfff0_0000
    ensures SignExtend(imm & 0x1f_ffff, 21) == imm
  {
    if imm <= 0xf_ffff {
      Positive21(imm);
    } else {
      Masked21(imm);
      Negative21(imm & 0x1f_ffff);
    }
  }

  lemma Masked21(imm: bv32)
    requires imm >= 0xfff0_0000
    ensures 0xf_ffff < imm & 0x1f_ffff <= 0x1f_ffff && (imm & 0x1f_ffff) | 0xffe0_0000 == imm
  {
  }

  /** The branch immediate read back is the distance that was encoded. */
  lemma BranchImmediate(f3: bv32, rs1: bv32, rs2: bv32, v: int, w: bv32)
    requires FitsBranch(v) && w == EncodeB(0x63, f3, rs1, rs2, WordOf(v))
    ensures Signed(BImm(w)) == v
  {
    hide EncodeB, BRaw, SignExtend;
    var imm := WordOf(v);
    SignedWordOf(v);
    Word13(imm);
    WordEven(imm);
    RawOfB(f3, rs1, rs2, imm, w);
    Extend13(imm);
  }

  lemma JumpImmediate(rd: bv32, v: int, w: bv32)
    requires FitsJump(v) && w == EncodeJ(0x6f, rd, WordOf(v))
    ensures Signed(JImm(w)) == v
  {
    hide EncodeJ, JRaw, SignExtend;
    var imm := WordOf(v);
    SignedWordOf(v);
    Word21(imm);
    WordEven(imm);
    RawOfJ(rd, imm, w);
    Extend21(imm);
  }

  // --------------------------------------------------------- table lookups

  /** Some table has a row for these fields. */
  predicate HasRow(op: bv32, f3: bv32, f7: bv32, imm12: bv32)
  {
    || RMnemonic(op, f3, f7).Some? || ShiftMnemonic(op, f3, imm12).Some? || IMnemonic(op, f3).Some?
    || (op == 0x67 && f3 == 0) || op == 0x6f || (op == 0x63 && BranchMnemonic(f3).Some?)
    || LoadMnemonic(op, f3).Some? || StoreMnemonic(op, f3).Some? || UMnemonic(op).Some?
  }

  lemma RowDecodes(w: bv32)
    requires HasRow(Opcode(w), Funct3(w), Funct7(w), Imm12(w))
    ensures DecodeWord(w).Some?
  {
    hide RMnemonic, ShiftMnemonic, IMnemonic, LoadMnemonic, StoreMnemonic, UMnemonic, BranchMnemonic;
    hide Opcode, Funct3, Funct7, Rd, Rs1, Rs2, Imm12, IImm, SImm, UImm, BImm, JImm, Signed;
  }

  predicate IsTransfer(op: bv32) { op == 0x63 || op == 0x6f }

  lemma OnlyBranchRows(f3: bv32, f7: bv32, imm12: bv32, op: bv32)
    requires IsTransfer(op)
    ensures RMnemonic(op, f3, f7).None? && ShiftMnemonic(op, f3, imm12).None? && IMnemonic(op, f3).None?
    ensures LoadMnemonic(op, f3).None? && StoreMnemonic(op, f3).None? && UMnemonic(op).None?
  {
  }

  /** The opcode decides whether a word transfers control, and which immediate it carries. */
  lemma TransferOpcodes(w: bv32)
    requires DecodeWord(w).Some?
    ensures IsControlFlow(DecodeWord(w).value) <==> IsTransfer(Opcode(w))
    ensures Opcode(w) == 0x63 ==> DecodeWord(w).value.immediate == Signed(BImm(w))
    ensures Opcode(w) == 0x6f ==> DecodeWord(w).value.immediate == Signed(JImm(w))
  {
    hide RMnemonic, ShiftMnemonic, IMnemonic, LoadMnemonic, StoreMnemonic, UMnemonic, BranchMnemonic;
    hide Opcode, Funct3, Funct7, Rd, Rs1, Rs2, Imm12, IImm, SImm, UImm, BImm, JImm, Signed;
    if IsTransfer(Opcode(w)) {
      OnlyBranchRows(Funct3(w), Funct7(w), Imm12(w), Opcode(w));
    }
  }

  lemma RowOpcode(op: bv32, f3: bv32, f7: bv32, imm12: bv32)
    requires HasRow(op, f3, f7, imm12)
    ensures op != 0x3f
  {
  }

  // ---------------------------------------------------- lines and their words

  /** Opcode and function fields of a line come from some row of the tables. */
  predicate Emittable(line: AsmLine)
  {
    match line
    case ILine(format, op, f3, f7, _, _, _, imm) =>
      op <= 0x7f && f3 <= 7 && f7 <= 0x7f &&
      (match format
       case LineR => RMnemonic(op, f3, f7).Some?
       case LineI =>
         IMnemonic(op, f3).Some? || LoadMnemonic(op, f3).Some? || (op == 0x67 && f3 == 0) ||
         ShiftMnemonic(op, f3, WordOf(imm) & 0xfff).Some?
       case LineS => StoreMnemonic(op, f3).Some?
       case LineU => UMnemonic(op).Some?)
    case BranchLine(op, f3, _, _, _, _) => op == 0x63 && f3 <= 7 && BranchMnemonic(f3).Some?
    case _ => true
  }

  predicate IsTransferLine(line: AsmLine)
  {
    line.BranchLine? || line.JumpLine?
  }

  /** The four bytes of a line, as a word, when it encodes to four bytes. */
  function WordOfLine(line: AsmLine): bv32
    requires !line.InsnDLine?
  {
    match line
    case LiLine(rd, imm) => EncodeI(0x13, rd, 0, 0, WordOf(imm))
    case RetLine => EncodeI(0x67, 0, 0, 1, 0)
    case ILine(format, op, f3, f7, rd, rs1, rs2, imm) =>
      (match format
       case LineR => EncodeR(op, rd, f3, rs1, rs2, f7)
       case LineI => EncodeI(op, rd, f3, rs1, WordOf(imm))
       case LineS => EncodeS(op, f3, rs1, rs2, WordOf(imm))
       case LineU => EncodeU(op, rd, WordOf(imm)))
    case BranchLine(op, f3, rs1, rs2, imm, _) => EncodeB(op, f3, rs1, rs2, WordOf(imm))
    case JumpLine(rd, imm, _) => EncodeJ(0x6f, rd, WordOf(imm))
  }

  lemma EncodedWord(line: AsmLine)
    requires !line.InsnDLine? && EncodeLine(line).Some?
    ensures EncodeLine(line) == Some(Le32(WordOfLine(line)))
  {
    hide EncodeI, EncodeR, EncodeS, EncodeU, EncodeB, EncodeJ, WordOf, Le32;
  }

  /** What the decoder finds in the word of an emitted line. */
  ghost predicate DecodesAs(w: bv32, line: AsmLine)
  {
    && HasRow(Opcode(w), Funct3(w), Funct7(w), Imm12(w))
    && (IsTransferLine(line) <==> IsTransfer(Opcode(w)))
    && (line.BranchLine? ==> Opcode(w) == 0x63 && Signed(BImm(w)) == line.immediate)
    && (line.JumpLine? ==> Opcode(w) == 0x6f && Signed(JImm(w)) == line.immediate)
  }

  lemma RowLine(line: AsmLine, w: bv32)
    requires line.ILine? && Emittable(line) && w == WordOfLine(line)
    ensures DecodesAs(w, line)
  {
    hide EncodeI, EncodeR, EncodeS, EncodeU, WordOf, Opcode, Funct3, Funct7, Imm12, BImm, JImm, Signed;
    hide RMnemonic, ShiftMnemonic, IMnemonic, LoadMnemonic, StoreMnemonic, UMnemonic, BranchMnemonic;
    var ILine(format, op, f3, f7, rd, rs1, rs2, imm) := line;
    match format {
      case LineR => FieldsOfR(op, rd, f3, rs1, rs2, f7, w);
      case LineI => FieldsOfI(op, rd, f3, rs1, WordOf(imm), w);
      case LineS => FieldsOfS(op, f3, rs1, rs2, WordOf(imm), w);
      case LineU => FieldsOfU(op, rd, WordOf(imm), w);
    }
    RowIsNoTransfer(line, Opcode(w));
  }

  lemma RowIsNoTransfer(line: AsmLine, op: bv32)
    requires line.ILine? && Emittable(line) && op == line.opcode
    ensures !IsTransfer(op)
  {
  }

  lemma OtherLine(line: AsmLine, w: bv32)
    requires !line.ILine? && !line.InsnDLine? && Emittable(line) && w == WordOfLine(line)
    requires line.BranchLine? ==> FitsBranch(line.immediate)
    requires line.JumpLine? ==> FitsJump(line.immediate)
    ensures DecodesAs(w, line)
  {
    hide EncodeI, EncodeB, EncodeJ, WordOf, Opcode, Funct3, Funct7, Imm12, ShiftMnemonic, BImm, JImm, Signed;
    match line {
      case LiLine(rd, imm) => FieldsOfI(0x13, rd, 0, 0, WordOf(imm), w);
      case RetLine => FieldsOfI(0x67, 0, 0, 1, 0, w);
      case BranchLine(_, f3, rs1, rs2, imm, _) =>
        FieldsOfB(f3, rs1, rs2, WordOf(imm), w);
        BranchImmediate(f3, rs1, rs2, imm, w);
      case JumpLine(rd, imm, _) =>
        FieldsOfJ(rd, WordOf(imm), w);
        JumpImmediate(rd, imm, w);
    }
  }

  /** An emitted 4-byte line decodes, and to a transfer of the same distance if it is one. */
  lemma EmittedWordDecodes(line: AsmLine)
    requires !line.InsnDLine? && Emittable(line) && EncodeLine(line).Some?
    ensures var w := WordOfLine(line);
            && EncodeLine(line) == Some(Le32(w))
            && Opcode(w) != 0x3f && DecodeWord(w).Some?
            && (IsControlFlow(DecodeWord(w).value) <==> IsTransferLine(line))
            && (IsTransferLine(line) ==> DecodeWord(w).value.immediate == line.immediate)
  {
    hide DecodeWord, Opcode, Funct3, Funct7, Imm12, WordOfLine, Emittable, HasRow, Le32, BImm, JImm, Signed;
    var w := WordOfLine(line);
    EncodedWord(line);
    if line.ILine? {
      RowLine(line, w);
    } else {
      OtherLine(line, w);
    }
    RowOpcode(Opcode(w), Funct3(w), Funct7(w), Imm12(w));
    RowDecodes(w);
    TransferOpcodes(w);
  }

  lemma EmittedInsnDDecodes(line: AsmLine)
    requires line.InsnDLine? && EncodeLine(line).Some?
    ensures var w := EncodeInsnD(line.major, line.operation, line.destination, line.lhs, line.rhs, line.accumulator,
                                 line.dtype);
            EncodeLine(line) == Some(Le64(w)) && DecodeInsnD(w).Some?
  {
    hide Le64;
    InsnDAccepted(line.major, line.operation, line.destination, line.lhs, line.rhs, line.accumulator, line.dtype);
  }

  lemma InsnDAccepted(major: bv32, operation: bv32, rd: bv32, rs1: bv32, rs2: bv32, rs4: bv32, dtype: bv32)
    requires major <= 0x7f && operation <= 0xff && dtype <= 0xffff && rd <= 31 && rs1 <= 31 && rs2 <= 31 && rs4 <= 31
    ensures DecodeInsnD(EncodeInsnD(major, operation, rd, rs1, rs2, rs4, dtype)).Some?
  {
  }

  // --------------------------------------------------- parsed lines qualify

  lemma RAccepted(r: ROp)
    ensures var e := RSpec(r); RMnemonic(e.op, e.f3, e.f7).Some? && e.op <= 0x7f && e.f3 <= 7 && e.f7 <= 0x7f
  {
    match r {
      case ADD => case SUB => case SLL => case SLT => case SLTU => case XOR => case SRL => case SRA =>
      case OR => case AND => case ADDW => case SUBW => case SLLW => case SRLW => case SRAW =>
    }
  }

  lemma IAccepted(i: IOp)
    ensures var e := ISpec(i); IMnemonic(e.op, e.f3).Some? && e.op <= 0x7f && e.f3 <= 7
  {
    match i {
      case ADDI => case SLTI => case SLTIU => case XORI => case ORI => case ANDI => case ADDIW =>
    }
  }

  lemma LoadAccepted(load: LoadOp)
    ensures var e := LoadSpec(load); LoadMnemonic(e.op, e.f3).Some? && e.op <= 0x7f && e.f3 <= 7
  {
    match load {
      case LB => case LH => case LW => case LD => case LBU => case LHU => case LWU =>
    }
  }

  lemma StoreAccepted(store: StoreOp)
    ensures var e := StoreSpec(store); StoreMnemonic(e.op, e.f3).Some? && e.op <= 0x7f && e.f3 <= 7
  {
  }

  lemma UAccepted(u: UOp)
    ensures var e := USpec(u); UMnemonic(e.op).Some? && e.op <= 0x7f
  {
  }

  lemma BranchAccepted(branch: BranchOp)
    ensures var e := BranchSpec(branch); BranchMnemonic(e.f3).Some? && e.f3 <= 7
  {
  }

  lemma ShiftTableAccepts(shift: ShiftOp, shamt: bv32)
    requires shamt <= ShamtMask(ShiftSpec(shift).maxShamt)
    ensures var ShiftEncoding(op, f3, f7, _) := ShiftSpec(shift);
            && op <= 0x7f && f3 <= 7 && f7 <= 0x7f
            && (f7 << 5) | shamt <= 0x7ff && ShiftMnemonic(op, f3, ((f7 << 5) | shamt) & 0xfff).Some?
  {
  }

  lemma ShamtWord(v: int, maxShamt: int)
    requires (maxShamt == 63 || maxShamt == 31) && 0 <= v <= maxShamt
    ensures WordOf(v) <= ShamtMask(maxShamt)
  {
    hide WordOf;
    if maxShamt == 63 {
      WordBelow64(v);
    } else {
      WordBelow32(v);
    }
  }

  lemma WordBelow64(v: int)
    requires 0 <= v <= 63
    ensures WordOf(v) <= 0x3f
  {
    hide Low, Unsigned, Pow2, BitsOf;
    PowersOfTwo();
    UnsignedBitsOf(v);
    Low6(WordOf(v));
    if !Low(WordOf(v), 6) {
      UnsignedAbove(WordOf(v), 6);
    }
  }

  lemma WordBelow32(v: int)
    requires 0 <= v <= 31
    ensures WordOf(v) <= 0x1f
  {
    hide Low, Unsigned, Pow2, BitsOf;
    PowersOfTwo();
    UnsignedBitsOf(v);
    Low5(WordOf(v));
    if !Low(WordOf(v), 5) {
      UnsignedAbove(WordOf(v), 5);
    }
  }

  lemma ShiftParsed(shift: ShiftOp, v: int, rd: bv32, rs1: bv32)
    requires 0 <= v <= ShiftSpec(shift).maxShamt
    ensures var ShiftEncoding(op, f3, f7, _) := ShiftSpec(shift);
            Emittable(ILine(LineI, op, f3, f7, rd, rs1, 0, Signed((f7 << 5) | WordOf(v))))
  {
    hide ShiftMnemonic, Signed, WordOf;
    var imm := (ShiftSpec(shift).f7 << 5) | WordOf(v);
    ShiftSpecShape(shift);
    ShamtWord(v, ShiftSpec(shift).maxShamt);
    ShiftTableAccepts(shift, WordOf(v));
    WordOfSigned(imm);
  }

  /** Whatever the line parser returns is built from the tables. */
  lemma ParsedEmittable(m: Mnemonic, operands: seq<Operand>)
    requires ParseLine(m, operands).Some?
    ensures Emittable(ParseLine(m, operands).value)
  {
    hide RSpec, ISpec, ShiftSpec, LoadSpec, StoreSpec, USpec, BranchSpec, Signed, WordOf, IsValidSymbol;
    hide RMnemonic, ShiftMnemonic, IMnemonic, LoadMnemonic, StoreMnemonic, UMnemonic, BranchMnemonic;
    match m {
      case RM(r) => RAccepted(r);
      case IM(i) => IAccepted(i);
      case ShiftM(shift) => ShiftParsed(shift, operands[2].value, operands[0].reg, operands[1].reg);
      case LoadM(load) => LoadAccepted(load);
      case StoreM(store) => StoreAccepted(store);
      case UM(u) => UAccepted(u);
      case BranchM(branch) => BranchAccepted(branch);
      case _ =>
    }
  }

  lemma ResolvedEmittable(line: AsmLine, immediate: int)
    requires Emittable(line)
    ensures Emittable(WithImmediate(line, immediate))
  {
  }
}
